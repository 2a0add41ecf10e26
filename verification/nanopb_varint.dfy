/** Base 128 varints: the encoder, the 64-bit and the 32-bit decoder, and zigzag. */
module PbVarint {
  import opened Arith
  import opened Bytes
  import opened PbStream

  // Written out where they multiply or divide: the solver wants literals there.
  const TWO32 := 0x1_0000_0000
  const TWO63 := 0x8000_0000_0000_0000
  const TWO64 := 0x1_0000_0000_0000_0000

  /** A varint as the format defines it: groups of seven bits, least significant first. */
  function VarintBytes(v: nat): (r: seq<Byte>)
    ensures |r| > 0 && r[|r| - 1] < 128
    ensures forall k :: 0 <= k < |r| - 1 ==> r[k] >= 128
  {
    if v < 128 then [v] else [v % 128 + 128] + VarintBytes(v / 128)
  }

  /** The length of the varint at the start of `s`: up to the first byte below 128; 0 if there is none. */
  function VarintLength(s: seq<Byte>): (n: nat)
    ensures n <= |s|
    ensures n > 0 ==> s[n - 1] < 128
    ensures forall k :: 0 <= k < n - 1 ==> s[k] >= 128
    ensures n == 0 ==> forall k :: 0 <= k < |s| ==> s[k] >= 128
  {
    if s == [] then 0
    else if s[0] < 128 then 1
    else if VarintLength(s[1..]) == 0 then
      assert forall k :: 1 <= k < |s| ==> s[k] == s[1..][k - 1];
      0
    else
      var n := VarintLength(s[1..]);
      assert s[n] == s[1..][n - 1] && forall k :: 1 <= k < n ==> s[k] == s[1..][k - 1];
      n + 1
  }

  function Pow128(k: nat): (r: nat)
    ensures r > 0
  {
    if k == 0 then 1 else 128 * Pow128(k - 1)
  }

  /** The number that the seven-bit groups of `s` make up. */
  function Sum(s: seq<Byte>): nat {
    if s == [] then 0 else Sum(s[..|s| - 1]) + s[|s| - 1] % 128 * Pow128(|s| - 1)
  }

  lemma Powers()
    ensures Pow128(1) == 128 && Pow128(2) == 16384 && Pow128(3) == 0x20_0000 && Pow128(4) == 0x1000_0000
    ensures Pow128(5) == 8 * 0x1_0000_0000 && Pow128(6) == 1024 * 0x1_0000_0000 && Pow128(7) == 0x2_0000 * 0x1_0000_0000
    ensures Pow128(8) == 0x100_0000 * 0x1_0000_0000 && Pow128(9) == TWO63 && Pow128(10) == 64 * 0x1_0000_0000_0000_0000
  {
    assert Pow128(2) == 128 * Pow128(1) && Pow128(3) == 128 * Pow128(2) && Pow128(4) == 128 * Pow128(3);
    assert Pow128(5) == 128 * Pow128(4) && Pow128(6) == 128 * Pow128(5) && Pow128(7) == 128 * Pow128(6);
    assert Pow128(8) == 128 * Pow128(7) && Pow128(9) == 128 * Pow128(8) && Pow128(10) == 128 * Pow128(9);
  }

  lemma {:induction false} SumBound(s: seq<Byte>)
    ensures Sum(s) < Pow128(|s|)
  {
    if s != [] {
      SumBound(s[..|s| - 1]);
      MulMono(s[|s| - 1] % 128, 127, Pow128(|s| - 1));
    }
  }

  lemma {:induction false} SumCons(b: Byte, s: seq<Byte>)
    ensures Sum([b] + s) == b % 128 + 128 * Sum(s)
  {
    var t := [b] + s;
    if s == [] {
      assert t[..|t| - 1] == [];
    } else {
      var d, p := s[|s| - 1] % 128, Pow128(|s| - 1);
      assert t[..|t| - 1] == [b] + s[..|s| - 1];
      SumCons(b, s[..|s| - 1]);
      assert d * (128 * p) == 128 * (d * p);
    }
  }

  /** What is encoded is one varint, whatever follows. */
  lemma {:induction false} VarintDelimited(v: nat, rest: seq<Byte>)
    ensures VarintLength(VarintBytes(v) + rest) == |VarintBytes(v)|
  {
    if v >= 128 {
      VarintDelimited(v / 128, rest);
      assert (VarintBytes(v) + rest)[1..] == VarintBytes(v / 128) + rest;
    }
  }

  /** Its groups make up the value. */
  lemma {:induction false} VarintSum(v: nat)
    ensures Sum(VarintBytes(v)) == v
  {
    if v < 128 {
      assert VarintBytes(v) == [v] + [];
      SumCons(v, []);
    } else {
      VarintSum(v / 128);
      assert VarintBytes(v) == [v % 128 + 128] + VarintBytes(v / 128);
      SumCons(v % 128 + 128, VarintBytes(v / 128));
    }
  }

  /** At most `k` bytes for a value below 128^k. */
  lemma {:induction false} VarintSize(v: nat, k: nat)
    requires k > 0 && v < Pow128(k)
    ensures |VarintBytes(v)| <= k
  {
    if v >= 128 {
      assert k > 1;
      assert v / 128 < Pow128(k - 1);
      VarintSize(v / 128, k - 1);
    }
  }

  /** A 64-bit value takes at most ten bytes. */
  lemma VarintSize64(v: nat)
    requires v < TWO64
    ensures |VarintBytes(v)| <= 10
  {
    Powers();
    VarintSize(v, 10);
  }

  // ---------- Encoding ----------

  /** pb_encode_varint */
  method EncodeVarint(stream: OStream, value: nat) returns (ok: bool)
    requires stream.Valid() && value < TWO64
    modifies stream
    ensures stream.Valid()
    ensures ok <==> old(stream.Room(|VarintBytes(value)|))
    ensures stream.Appended(old(stream.state), old(stream.bytesWritten), if ok then VarintBytes(value) else [])
  {
    if value <= 0x7F {
      ok := stream.Write([value]);
      return;
    }
    var buffer := GroupBytes(value);
    ok := stream.Write(buffer);
  }

  /** The loop that fills the ten-byte buffer, and the top bit of its last byte. */
  /** The groups of a value, all with their top bit. */
  function Groups(v: nat): (r: seq<Byte>)
    ensures v > 0 ==> r != []
  {
    if v == 0 then [] else [v % 128 + 128] + Groups(v / 128)
  }

  function Ended(buffer: seq<Byte>): seq<Byte>
    requires buffer != []
  {
    buffer[|buffer| - 1 := buffer[|buffer| - 1] % 128]
  }

  /** Only the last group goes without it. */
  lemma {:induction false} EndedGroups(v: nat)
    requires v > 0
    ensures Ended(Groups(v)) == VarintBytes(v)
  {
    if v < 128 {
      assert Groups(v) == [v + 128];
    } else {
      EndedGroups(v / 128);
      EndedCons(v % 128 + 128, Groups(v / 128));
    }
  }

  lemma EndedCons(b: Byte, rest: seq<Byte>)
    requires rest != []
    ensures Ended([b] + rest) == [b] + Ended(rest)
  {
  }

  lemma GroupStep(buffer: seq<Byte>, v: nat)
    requires v > 0
    ensures buffer + Groups(v) == buffer + [v % 128 + 128] + Groups(v / 128)
  {
    Regroup(buffer, [v % 128 + 128], Groups(v / 128));
  }

  lemma AllGroups(buffer: seq<Byte>, value: nat)
    requires 0 < value < TWO64 && buffer + Groups(0) == Groups(value)
    ensures buffer != [] && Ended(buffer) == VarintBytes(value) && |buffer| <= 10
  {
    assert buffer + [] == buffer;
    EndedGroups(value);
    VarintSize64(value);
  }

  method GroupBytes(value: nat) returns (buffer: seq<Byte>)
    requires 0 < value < TWO64
    ensures buffer == VarintBytes(value) && |buffer| <= 10
  {
    buffer := [];
    var v: nat := value;
    while v > 0
      invariant buffer + Groups(v) == Groups(value)
      decreases v
    {
      GroupStep(buffer, v);
      buffer := buffer + [v % 128 + 128];
      v := v / 128;
    }
    AllGroups(buffer, value);
    buffer := buffer[|buffer| - 1 := buffer[|buffer| - 1] % 128];
  }

  // ---------- Decoding ----------

  function Pow2(n: nat): (r: nat)
    ensures r > 0
  {
    if n == 0 then 1 else 2 * Pow2(n - 1)
  }

  lemma {:induction false} Pow2Of7(k: nat)
    ensures Pow2(7 * k) == Pow128(k)
  {
    if k > 0 {
      Pow2Of7(k - 1);
      var p := Pow2(7 * k - 7);
      assert Pow2(7 * k - 6) == 2 * p && Pow2(7 * k - 5) == 4 * p && Pow2(7 * k - 4) == 8 * p;
      assert Pow2(7 * k - 3) == 16 * p && Pow2(7 * k - 2) == 32 * p && Pow2(7 * k - 1) == 64 * p;
    }
  }

  /** The first `k` bytes announce another one. */
  predicate More(s: seq<Byte>, k: nat)
    requires k <= |s|
  {
    forall i :: 0 <= i < k ==> s[i] >= 128
  }

  lemma LengthFound(s: seq<Byte>, k: nat)
    requires k < |s| && s[k] < 128 && More(s, k)
    ensures VarintLength(s) == k + 1
  {
    var n := VarintLength(s);
    assert n > 0;
    assert s[n - 1] < 128;
    assert n - 1 >= k;
  }

  lemma SumStep(s: seq<Byte>, k: nat)
    requires k < |s|
    ensures Sum(s[..k + 1]) == Sum(s[..k]) + s[k] % 128 * Pow128(k)
    ensures Sum(s[..k]) < Pow128(k)
  {
    assert s[..k + 1][..k] == s[..k];
    SumBound(s[..k]);
  }

  lemma Power9()
    ensures Pow128(8) == 0x100_0000_0000_0000 && Pow128(9) == TWO63
  {
    Powers();
  }

  /** One more group in a 64-bit result. */
  lemma Group64(low: nat, d: nat, k: nat)
    requires k < 10 && d < 128 && low < Pow128(k)
    ensures var x := d * Pow128(k); (low + x) % 0x1_0000_0000_0000_0000 == low + x % 0x1_0000_0000_0000_0000
    ensures k < 9 ==> d * Pow128(k) % 0x1_0000_0000_0000_0000 == d * Pow128(k)
  {
    Power9();
    if k < 9 {
      PowMono(k, 8);
      Below64(low, d, Pow128(k));
    } else {
      Half64(low, d, Pow128(k));
    }
  }

  lemma Below64(low: nat, d: nat, p: nat)
    requires d < 128 && low < p <= 0x100_0000_0000_0000
    ensures (low + d * p) % 0x1_0000_0000_0000_0000 == low + d * p % 0x1_0000_0000_0000_0000
    ensures d * p % 0x1_0000_0000_0000_0000 == d * p
  {
    MulMono(d, 127, p);
    Add64(low, d * p);
  }

  lemma Add64(low: nat, x: nat)
    requires low + x < 0x1_0000_0000_0000_0000
    ensures (low + x) % 0x1_0000_0000_0000_0000 == low + x % 0x1_0000_0000_0000_0000
    ensures x % 0x1_0000_0000_0000_0000 == x
  {
  }

  lemma Small64(x: nat)
    requires x < 0x1_0000_0000_0000_0000
    ensures x % 0x1_0000_0000_0000_0000 == x
  {
  }

  /** Of the tenth byte one bit fits. */
  lemma Half64(low: nat, d: nat, p: nat)
    requires d < 128 && low < 0x8000_0000_0000_0000 && p == 0x8000_0000_0000_0000
    ensures (low + d * p) % 0x1_0000_0000_0000_0000 == low + d * p % 0x1_0000_0000_0000_0000
  {
    assert d * p == d % 2 * 0x8000_0000_0000_0000 + d / 2 * 0x1_0000_0000_0000_0000;
  }

  lemma {:induction false} PowMono(k: nat, m: nat)
    requires k <= m
    ensures Pow128(k) <= Pow128(m)
  {
    if k < m {
      PowMono(k, m - 1);
    }
  }

  function AddGroup64(result: nat, b: Byte, bitpos: nat): nat {
    result + b % 128 * Pow2(bitpos) % 0x1_0000_0000_0000_0000  // or: the bits are disjoint
  }

  lemma StepVarint(s: seq<Byte>, k: nat, result: nat)
    requires k < 10 && k < |s| && result == Sum(s[..k])
    ensures AddGroup64(result, s[k], 7 * k) == Sum(s[..k + 1]) % 0x1_0000_0000_0000_0000
    ensures k < 9 ==> AddGroup64(result, s[k], 7 * k) == Sum(s[..k + 1])
  {
    Pow2Of7(k);
    SumStep(s, k);
    Group64(result, s[k] % 128, k);
  }

  lemma MoreThan(s: seq<Byte>, k: nat)
    requires k <= |s| && More(s, k)
    ensures VarintLength(s) == 0 || VarintLength(s) > k
  {
  }

  /** pb_decode_varint: accepts up to ten bytes, and keeps 64 bits of what they say. */
  method DecodeVarint(stream: IStream) returns (ok: bool, dest: nat)
    requires stream.Valid()
    modifies stream
    ensures stream.Valid()
    ensures ok <==> 0 < VarintLength(old(stream.Left())) <= 10
    ensures ok ==> var s := old(stream.Left()); var n := VarintLength(s);
      && dest == Sum(s[..n]) % 0x1_0000_0000_0000_0000
      && stream.Left() == s[n..] && stream.state == old(stream.state) + n
  {
    var bitpos, result := 0, 0;
    ghost var s, k := stream.Left(), 0;
    while true
      invariant stream.Valid() && k <= 10 && bitpos == 7 * k && k <= |s|
      invariant stream.Left() == s[k..] && stream.state == old(stream.state) + k
      invariant More(s, k)
      invariant k < 10 ==> result == Sum(s[..k])
      decreases 10 - k
    {
      if bitpos >= 64 {
        MoreThan(s, 10);
        return false, 0;
      }
      var gotByte, b := stream.ReadByte();
      if !gotByte {
        MoreThan(s, k);
        return false, 0;
      }
      StepVarint(s, k, result);
      result := AddGroup64(result, b, bitpos);
      bitpos := bitpos + 7;
      k := k + 1;
      if b < 128 {
        LengthFound(s, k - 1);
        return true, result;
      }
    }
  }

  /** Byte `i`, past the 32 bits, only extends the sign. */
  predicate SignExtends(s: seq<Byte>, i: nat)
    requires 5 <= i < |s|
  {
    s[i] % 128 == 0 || (s[4] % 16 >= 8 && s[i] == (if i < 9 then 0xFF else 0x01))
  }

  /** The varints of up to ten bytes that the 32-bit decoder accepts. */
  predicate Accepts32(s: seq<Byte>) {
    && (|s| == 5 ==> s[4] < 16)
    && forall i :: 5 <= i < |s| ==> SignExtends(s, i)
  }

  lemma Mod32(x: nat, m: nat)
    ensures (x + m * 0x1_0000_0000) % 0x1_0000_0000 == x % 0x1_0000_0000
  {
  }

  lemma GroupBelow4(sum: nat, d: nat, k: nat)
    requires k < 4 && d < 128 && sum < Pow128(k)
    ensures sum + d * Pow128(k) < Pow128(k + 1) <= 0x1000_0000
  {
    Powers();
    PowMono(k + 1, 4);
    MulMono(d, 127, Pow128(k));
  }

  /** Of the fifth byte only four bits fit. */
  lemma Group4(sum: nat, d: nat)
    requires d < 128 && sum < 0x1000_0000
    ensures d * 0x1000_0000 % 0x1_0000_0000 == d % 16 * 0x1000_0000
    ensures (sum + d * 0x1000_0000) % 0x1_0000_0000 == sum + d % 16 * 0x1000_0000
  {
    var x := d % 16 * 0x1000_0000;
    assert d * 0x1000_0000 == x + d / 16 * 0x1_0000_0000;
    Mod32(x, d / 16);
    Mod32(sum + x, d / 16);
    Small32Mod(x);
    Small32Mod(sum + x);
  }

  /** Later ones are out of reach. */
  lemma GroupPast4(sum: nat, d: nat, k: nat)
    requires 5 <= k < 10 && d < 128
    ensures (sum + d * Pow128(k)) % 0x1_0000_0000 == sum % 0x1_0000_0000
  {
    Powers();
    var m := d * (Pow128(k) / 0x1_0000_0000);
    assert d * Pow128(k) == m * 0x1_0000_0000;
    Mod32(sum, m);
  }

  /** What the decoder makes of `s`.  (Past ten bytes its bit position wraps around, and then the result
      says nothing of the value.) */
  ghost predicate Outcome32(s: seq<Byte>, ok: bool, dest: nat) {
    var n := VarintLength(s);
    && (ok ==> n > 0 && dest < TWO32 && (n <= 10 ==> dest == Sum(s[..n]) % 0x1_0000_0000))
    && (0 < n <= 10 ==> (ok <==> Accepts32(s[..n])))
  }

  /** The bit position is a uint_fast8_t. */
  function NextBit(bitpos: nat): (r: nat)
    ensures r < 256 && (bitpos < 249 ==> r == bitpos + 7)
  {
    (bitpos + 7) % 256
  }

  /** What its loop keeps, `k` bytes read. */
  ghost predicate Read32(s: seq<Byte>, k: nat, bitpos: nat, result: nat) {
    && 0 < k <= |s| && result < TWO32 && bitpos < 256
    && (k <= 10 ==>
      && bitpos == 7 * k && result == Sum(s[..k]) % 0x1_0000_0000
      && (5 <= k ==> (result >= 0x8000_0000 <==> s[4] % 16 >= 8))
      && (forall i :: 5 <= i < k ==> SignExtends(s, i)))
  }

  lemma FirstByte(s: seq<Byte>)
    requires s != []
    ensures Read32(s, 1, 7, s[0] % 128)
    ensures s[0] < 128 ==> Outcome32(s, true, s[0])
  {
    SumStep(s, 0);
    if s[0] < 128 { LengthFound(s, 0); }
  }

  function AddGroup(result: nat, b: Byte, bitpos: nat): (r: nat)
    ensures r < TWO32
  {
    (result + b % 128 * Pow2(bitpos) % 0x1_0000_0000) % 0x1_0000_0000  // or: the bits are disjoint
  }

  lemma AddGroupBelow4(sum: nat, b: Byte, k: nat)
    requires k < 4 && sum < Pow128(k)
    ensures AddGroup(sum, b, 7 * k) == sum + b % 128 * Pow128(k) < 0x1000_0000
  {
    Pow2Of7(k);
    GroupBelow4(sum, b % 128, k);
    Small32Mod(b % 128 * Pow128(k));
    Small32Mod(sum + b % 128 * Pow128(k));
  }

  lemma AddGroup4(sum: nat, b: Byte)
    requires sum < 0x1000_0000
    ensures AddGroup(sum, b, 28) == sum + b % 16 * 0x1000_0000 == (sum + b % 128 * Pow128(4)) % 0x1_0000_0000
  {
    Pow2Of7(4);
    Powers();
    AddTimes28(sum, b, Pow2(28));
  }

  lemma AddTimes28(sum: nat, b: Byte, p: nat)
    requires sum < 0x1000_0000 && p == 0x1000_0000
    ensures (sum + b % 128 * p % 0x1_0000_0000) % 0x1_0000_0000 == sum + b % 16 * 0x1000_0000
    ensures (sum + b % 128 * p) % 0x1_0000_0000 == sum + b % 16 * 0x1000_0000
  {
    var d := b % 128;
    assert d % 16 == b % 16;
    Group4(sum, d);
    Small32Mod(sum + d % 16 * 0x1000_0000);
  }

  lemma AddGroupSum(s: seq<Byte>, k: nat)
    requires k < 5 && k < |s|
    ensures Sum(s[..k]) < 0x1000_0000
    ensures AddGroup(Sum(s[..k]), s[k], 7 * k) == Sum(s[..k + 1]) % 0x1_0000_0000
    ensures k == 4 ==> (AddGroup(Sum(s[..k]), s[k], 7 * k) >= 0x8000_0000 <==> s[4] % 16 >= 8)
  {
    if k < 4 {
      SumStep(s, k);
      AddGroupBelow4(Sum(s[..k]), s[k], k);
    } else {
      AddFifthSum(s);
    }
  }

  lemma AddFifthSum(s: seq<Byte>)
    requires |s| > 4
    ensures Sum(s[..4]) < 0x1000_0000
    ensures AddGroup(Sum(s[..4]), s[4], 28) == Sum(s[..5]) % 0x1_0000_0000
    ensures AddGroup(Sum(s[..4]), s[4], 28) >= 0x8000_0000 <==> s[4] % 16 >= 8
  {
    FourBelow(s);
    AddGroup4(Sum(s[..4]), s[4]);
    TopBit(Sum(s[..4]), s[4] % 16);
  }

  lemma FourBelow(s: seq<Byte>)
    requires |s| > 4
    ensures Sum(s[..5]) == Sum(s[..4]) + s[4] % 128 * Pow128(4) && Sum(s[..4]) < 0x1000_0000
  {
    SumStep(s, 4);
    Powers();
  }

  lemma TopBit(sum: nat, d: nat)
    requires sum < 0x1000_0000 && d < 16
    ensures sum + d * 0x1000_0000 >= 0x8000_0000 <==> d >= 8
  {
  }

  lemma StepGroup(s: seq<Byte>, k: nat, bitpos: nat, result: nat)
    requires Read32(s, k, bitpos, result) && k < |s| && bitpos < 32
    ensures Read32(s, k + 1, NextBit(bitpos), AddGroup(result, s[k], bitpos))
  {
    if k <= 10 {
      assert k < 5;
      AddGroupSum(s, k);
      Small32Mod(Sum(s[..k]));
    }
  }

  lemma Small32Mod(x: nat)
    requires x < 0x1_0000_0000
    ensures x % 0x1_0000_0000 == x
  {
  }

  predicate Rejects(result: nat, b: Byte, bitpos: nat) {
    b % 128 != 0 && (result < 0x8000_0000 || b != (if bitpos < 63 then 0xFF else 0x01))
  }

  lemma StepSign(s: seq<Byte>, k: nat, bitpos: nat, result: nat)
    requires Read32(s, k, bitpos, result) && k < |s| && bitpos >= 32 && !Rejects(result, s[k], bitpos)
    ensures Read32(s, k + 1, NextBit(bitpos), result)
  {
    if k < 10 {
      SumStep(s, k);
      GroupPast4(Sum(s[..k]), s[k] % 128, k);
    }
  }

  lemma Rejected(s: seq<Byte>, k: nat, bitpos: nat, result: nat)
    requires Read32(s, k, bitpos, result) && k < |s| && bitpos >= 32 && Rejects(result, s[k], bitpos)
    requires More(s, k)
    ensures Outcome32(s, false, 0)
  {
    var n := VarintLength(s);
    if 0 < n <= 10 {
      assert s[n - 1] < 128;
      assert n > k;
      assert SignExtends(s[..n], k) <==> SignExtends(s, k);
      assert !SignExtends(s, k);
    }
  }

  lemma NoMoreBytes(s: seq<Byte>)
    requires More(s, |s|)
    ensures Outcome32(s, false, 0)
  {
    assert VarintLength(s) == 0;
  }

  /** After the last byte: the test for varints of five bytes. */
  lemma LastTest(s: seq<Byte>, n: nat, bitpos: nat, result: nat)
    requires Read32(s, n, bitpos, result) && 1 < n && s[n - 1] < 128 && More(s, n - 1)
    ensures VarintLength(s) == n
    ensures Outcome32(s, !(bitpos == 35 && s[n - 1] % 128 >= 16), result)
  {
    LengthFound(s, n - 1);
    if n <= 10 {
      assert forall i :: 5 <= i < n ==> (SignExtends(s[..n], i) <==> SignExtends(s, i));
    }
  }

  /** One turn of its loop, on the byte after `k` others; false at the end or on a rejected byte. */
  method NextByte(stream: IStream, bitpos: nat, result: nat, ghost s: seq<Byte>, ghost k: nat)
    returns (ok: bool, b: Byte, bitpos': nat, result': nat)
    requires stream.Valid() && Read32(s, k, bitpos, result) && stream.Left() == s[k..] && More(s, k)
    modifies stream
    ensures stream.Valid() && (!ok ==> Outcome32(s, false, 0))
    ensures ok ==>
      && k < |s| && b == s[k] && Read32(s, k + 1, bitpos', result')
      && stream.Left() == s[k + 1..] && stream.state == old(stream.state) + 1
  {
    result' := result;
    bitpos' := NextBit(bitpos);
    ok, b := stream.ReadByte();
    if !ok {
      NoMoreBytes(s);
    } else if bitpos < 32 {
      StepGroup(s, k, bitpos, result);
      result' := AddGroup(result, b, bitpos);
    } else if Rejects(result, b, bitpos) {
      Rejected(s, k, bitpos, result);
      ok := false;
    } else {
      StepSign(s, k, bitpos, result);
    }
  }

  /** pb_decode_varint32_eof */
  method DecodeVarint32Eof(stream: IStream) returns (ok: bool, dest: nat, eof: bool)
    requires stream.Valid()
    modifies stream
    ensures stream.Valid()
    ensures eof <==> old(stream.Left()) == []
    ensures eof ==> stream.state == old(stream.state) && stream.bytesLeft == old(stream.bytesLeft)
    ensures Outcome32(old(stream.Left()), ok, dest)
    ensures ok ==> var n := VarintLength(old(stream.Left()));
      stream.Left() == old(stream.Left())[n..] && stream.state == old(stream.state) + n
  {
    ghost var s := stream.Left();
    var gotByte, b := stream.ReadByte();
    if !gotByte {
      NoMoreBytes(s);
      return false, 0, stream.bytesLeft == 0;
    }
    FirstByte(s);
    if b < 128 {
      LengthFound(s, 0);
      return true, b, false;
    }
    var bitpos, result := 7, b % 128;
    ghost var k := 1;
    while true
      invariant stream.Valid() && 0 <= bitpos && Read32(s, k, bitpos, result)
      invariant stream.Left() == s[k..] && stream.state == old(stream.state) + k
      invariant More(s, k)
      decreases stream.bytesLeft
    {
      var more;
      more, b, bitpos, result := NextByte(stream, bitpos, result, s, k);
      if !more {
        return false, 0, false;
      }
      k := k + 1;
      if b < 128 {
        break;
      }
    }
    LastTest(s, k, bitpos, result);
    if bitpos == 35 && b % 128 >= 16 {
      return false, result, false;
    }
    return true, result, false;
  }

  /** pb_decode_varint32 */
  method DecodeVarint32(stream: IStream) returns (ok: bool, dest: nat)
    requires stream.Valid()
    modifies stream
    ensures stream.Valid()
    ensures Outcome32(old(stream.Left()), ok, dest)
    ensures ok ==> var n := VarintLength(old(stream.Left()));
      stream.Left() == old(stream.Left())[n..] && stream.state == old(stream.state) + n
  {
    var eof;
    ok, dest, eof := DecodeVarint32Eof(stream);
  }

  /** pb_skip_varint */
  method SkipVarint(stream: IStream) returns (ok: bool)
    requires stream.Valid()
    modifies stream
    ensures stream.Valid()
    ensures ok <==> VarintLength(old(stream.Left())) > 0
    ensures ok ==> var n := VarintLength(old(stream.Left()));
      stream.Left() == old(stream.Left())[n..] && stream.state == old(stream.state) + n
  {
    ghost var s, k := stream.Left(), 0;
    while true
      invariant stream.Valid() && k <= |s|
      invariant stream.Left() == s[k..] && stream.state == old(stream.state) + k
      invariant More(s, k)
      decreases stream.bytesLeft
    {
      var gotByte, b := stream.Read(1);
      if !gotByte {
        return false;
      }
      k := k + 1;
      if b[0] < 128 {
        LengthFound(s, k - 1);
        return true;
      }
    }
  }

  /** Both decoders, wherever both accept: the 32-bit result is the 64-bit one cut to 32 bits, and the
      same bytes are read. */
  method DecodeBoth(buf: seq<Byte>) returns (ok64: bool, v64: nat, left64: nat, ok32: bool, v32: nat, left32: nat)
    ensures ok64 && ok32 ==> v32 == v64 % 0x1_0000_0000 && left32 == left64
    ensures ok32 && !ok64 ==> VarintLength(buf) > 10
  {
    var stream64 := new IStream(buf, 0, |buf|);
    var stream32 := new IStream(buf, 0, |buf|);
    assert stream64.Left() == buf && stream32.Left() == buf;
    ok64, v64 := DecodeVarint(stream64);
    ok32, v32 := DecodeVarint32(stream32);
    left64, left32 := stream64.bytesLeft, stream32.bytesLeft;
    assert ok64 && ok32 ==> stream64.Left() == stream32.Left();
    if ok64 { Mod64Mod32(Sum(buf[..VarintLength(buf)])); }
  }

  lemma Mod64Mod32(x: nat)
    ensures x % 0x1_0000_0000_0000_0000 % 0x1_0000_0000 == x % 0x1_0000_0000
  {
    var q := x / 0x1_0000_0000_0000_0000;
    assert x == x % 0x1_0000_0000_0000_0000 + q * 0x1_0000_0000 * 0x1_0000_0000;
    Mod32(x % 0x1_0000_0000_0000_0000, q * 0x1_0000_0000);
  }

  /** What both decoders make of an encoded 64-bit value, whatever follows it. */
  lemma DecodesBack(v: nat, s: seq<Byte>)
    requires v < TWO64 && VarintBytes(v) <= s
    ensures VarintLength(s) == |VarintBytes(v)| <= 10 && s[..VarintLength(s)] == VarintBytes(v)
    ensures Sum(s[..VarintLength(s)]) % 0x1_0000_0000_0000_0000 == v
    ensures v < TWO32 ==> Accepts32(s[..VarintLength(s)]) && Sum(s[..VarintLength(s)]) % 0x1_0000_0000 == v
  {
    assert s == VarintBytes(v) + s[|VarintBytes(v)|..];
    VarintDelimited(v, s[|VarintBytes(v)|..]);
    VarintSum(v);
    VarintSize64(v);
    Small64(v);
    if v < TWO32 {
      Small32(v);
      Small32Mod(v);
    }
  }

  /** Values of 32 bits are accepted by the 32-bit decoder. */
  lemma Small32(v: nat)
    requires v < TWO32
    ensures Accepts32(VarintBytes(v))
  {
    Powers();
    var s := VarintBytes(v);
    VarintSize(v, 5);
    VarintSum(v);
    if |s| == 5 {
      SumStep(s, 4);
      assert s[..5] == s;
    }
  }

  /** A negative 32-bit value, sign-extended to 64 bits as the encoder does, is accepted, and comes out
      as its 32-bit two's complement. */
  lemma Negative32(m: nat)
    requires 0 < m <= 0x8000_0000
    ensures Accepts32(VarintBytes(TWO64 - m)) && Sum(VarintBytes(TWO64 - m)) % 0x1_0000_0000 == TWO32 - m
  {
    var v := TWO64 - m;
    VarintSum(v);
    Top28(m);
  }

  /** The bytes of a sign-extended value: four full groups and the top bit follow the first five. */
  lemma Top28(m: nat)
    requires 0 < m <= 0x8000_0000
    ensures var s := VarintBytes(TWO64 - m);
      && |s| == 10 && s[4] % 16 >= 8 && s[9] == 1
      && s[5] == 0xFF && s[6] == 0xFF && s[7] == 0xFF && s[8] == 0xFF
  {
    var v1 := NextGroups(TWO64 - m, 0x1FF_FFFF_FF00_0000, 0x200_0000_0000_0000);
    var v2 := NextGroups(v1, 0x3_FFFF_FFFE_0000, 0x4_0000_0000_0000);
    var v3 := NextGroups(v2, 0x7FF_FFFF_FC00, 0x800_0000_0000);
    var v4 := NextGroups(v3, 0xF_FFFF_FFF8, 0x10_0000_0000);
    FullGroups(v4);
  }

  lemma NextGroups(v: nat, lo: nat, hi: nat) returns (next: nat)
    requires 0 < lo && 128 * lo <= v < 128 * hi
    ensures lo <= next < hi && VarintBytes(v) == [v % 128 + 128] + VarintBytes(next)
  {
    next := v / 128;
  }

  lemma FullGroups(v4: nat)
    requires 0x10_0000_0000 - 8 <= v4 < 0x10_0000_0000
    ensures VarintBytes(v4) == [v4 % 128 + 128, 0xFF, 0xFF, 0xFF, 0xFF, 0x01] && v4 % 128 >= 120
  {
    assert v4 / 128 == 0x1FFF_FFFF;
    assert VarintBytes(0xFF) == [0xFF, 0x01];
    assert VarintBytes(0x7FFF) == [0xFF] + VarintBytes(0xFF);
    assert VarintBytes(0x3F_FFFF) == [0xFF] + VarintBytes(0x7FFF);
    assert VarintBytes(0x1FFF_FFFF) == [0xFF] + VarintBytes(0x3F_FFFF);
  }

  /** One varint: every byte but the last has its top bit set. */
  predicate IsVarint(s: seq<Byte>) {
    |s| > 0 && s[|s| - 1] < 128 && forall k :: 0 <= k < |s| - 1 ==> s[k] >= 128
  }

  /** A value of 32 bits, or a negative one sign-extended to 64. */
  predicate Fits32(v: nat) {
    v < TWO32 || TWO64 - 0x8000_0000 <= v < TWO64
  }

  predicate ZeroFrom(s: seq<Byte>, k: nat) {
    forall i :: k <= i < |s| ==> s[i] % 128 == 0
  }

  /** The bytes of such a value, in any number of groups. */
  predicate Shows32(s: seq<Byte>) {
    || (|s| >= 5 ==> s[4] % 128 < 16 && ZeroFrom(s, 5))
    || (|s| == 10 && s[4] % 128 >= 0x78 && s[5..] == [0xFF, 0xFF, 0xFF, 0xFF, 0x01])
  }

  lemma {:induction false} SumZero(s: seq<Byte>)
    ensures Sum(s) == 0 <==> ZeroFrom(s, 0)
  {
    if s != [] {
      assert s == [s[0]] + s[1..];
      SumCons(s[0], s[1..]);
      SumZero(s[1..]);
      assert forall i :: 1 <= i < |s| ==> s[i] == s[1..][i - 1];
    }
  }

  /** `k` full groups and a one. */
  function Ones(k: nat): seq<Byte> {
    if k == 0 then [0x01] else [0xFF] + Ones(k - 1)
  }

  lemma {:induction false} SumOnes(s: seq<Byte>, k: nat)
    requires IsVarint(s) && |s| <= k + 1
    ensures Sum(s) == 2 * Pow128(k) - 1 <==> s == Ones(k)
  {
    var b, rest := s[0], s[1..];
    assert s == [b] + rest;
    SumCons(b, rest);
    if k == 0 {
      assert rest == [];
    } else if rest == [] {
      assert |Ones(k)| > 1;
    } else {
      assert IsVarint(rest) by { assert forall i :: 0 <= i < |rest| ==> rest[i] == s[i + 1]; }
      SumOnes(rest, k - 1);
      assert Ones(k) == [0xFF] + Ones(k - 1);
      assert s == Ones(k) <==> b == 0xFF && rest == Ones(k - 1);
    }
  }

  /** The first four groups, and the others. */
  lemma SumSplit2(s: seq<Byte>)
    requires |s| >= 2
    ensures Sum(s) == Sum(s[..2]) + 0x4000 * Sum(s[2..]) && Sum(s[..2]) < 0x4000
  {
    var a, b, t := s[0], s[1], s[2..];
    assert s == [a] + ([b] + t) && s[..2] == [a] + ([b] + []);
    SumCons(a, [b] + t);
    SumCons(b, t);
    SumCons(a, [b] + []);
    SumCons(b, []);
  }

  lemma SumSplit4(s: seq<Byte>)
    requires |s| >= 4
    ensures Sum(s) == Sum(s[..4]) + 0x1000_0000 * Sum(s[4..]) && Sum(s[..4]) < 0x1000_0000
  {
    SumSplit2(s);
    SumSplit2(s[2..]);
    SumSplit2(s[..4]);
    assert s[2..][2..] == s[4..] && s[..4][..2] == s[..2] && s[..4][2..] == s[2..][..2];
    SumSplit2(s[..4][2..] + []);
    assert s[..4][2..] + [] == s[..4][2..];
  }

  /** Which varints hold a 32-bit value, by their bytes. */
  lemma Fits32Iff(s: seq<Byte>)
    requires IsVarint(s) && |s| <= 10
    ensures Fits32(Sum(s)) <==> Shows32(s)
  {
    Powers();
    if |s| < 5 {
      SumBound(s);
      assert |s| < 4 ==> Pow128(|s|) <= 0x20_0000;
    } else {
      var low, b, rest := Sum(s[..4]), s[4], s[5..];
      SumSplit4(s);
      assert s[4..] == [b] + rest;
      SumCons(b, rest);
      SumZero(rest);
      HighGroups(low, b, Sum(rest));
      ShowsHigh(s, rest);
    }
  }

  /** The groups above the fifth are zeros, or all ones. */
  lemma ShowsHigh(s: seq<Byte>, rest: seq<Byte>)
    requires IsVarint(s) && 5 <= |s| <= 10 && rest == s[5..]
    ensures Shows32(s) <==>
      (s[4] % 128 < 16 && ZeroFrom(rest, 0)) || (s[4] % 128 >= 0x78 && Sum(rest) == 0x1FFF_FFFF)
  {
    assert forall i :: 5 <= i < |s| ==> s[i] == rest[i - 5];
    assert ZeroFrom(s, 5) <==> ZeroFrom(rest, 0) by {
      assert forall i :: 0 <= i < |rest| ==> rest[i] == s[i + 5];
    }
    if rest != [] {
      Powers();
      SumOnes(rest, 4);
      FiveOnes();
    }
  }

  lemma FiveOnes()
    ensures Ones(4) == [0xFF, 0xFF, 0xFF, 0xFF, 0x01]
  {
    assert Ones(1) == [0xFF, 0x01] && Ones(2) == [0xFF] + Ones(1) && Ones(3) == [0xFF] + Ones(2);
  }

  lemma HighGroups(low: nat, b: Byte, h: nat)
    requires low < 0x1000_0000
    ensures var v := low + 0x1000_0000 * (b % 128 + 128 * h);
      && (v < TWO32 <==> b % 128 < 16 && h == 0)
      && (TWO64 - 0x8000_0000 <= v < TWO64 <==> b % 128 >= 0x78 && h == 0x1FFF_FFFF)
  {
  }

  /** The decoder accepts more: here the value is neither of 32 bits nor a sign-extended one. */
  lemma AcceptsMore()
    ensures var s := [0x80, 0x80, 0x80, 0x80, 0x88, 0x80, 0x80, 0x80, 0x80, 0x01];
      IsVarint(s) && Accepts32(s) && !Fits32(Sum(s))
  {
    Fits32Iff([0x80, 0x80, 0x80, 0x80, 0x88, 0x80, 0x80, 0x80, 0x80, 0x01]);
  }

  /** Every 32-bit value is accepted however many groups it takes, so the decoder's answer is wrong exactly for the
      accepted varints that do not show one. */
  lemma Shows32Accepted(s: seq<Byte>)
    requires IsVarint(s) && |s| <= 10 && Shows32(s)
    ensures Accepts32(s)
  {
  }

  // ---------- Zigzag ----------

  type Int64 = x: int | -TWO63 <= x < TWO63

  /** Section "Signed Integers" of the encoding specification. */
  function ZigZag(v: Int64): (u: nat)
    ensures u < TWO64
  {
    if v >= 0 then 2 * v else -2 * v - 1
  }

  /** (uint64_t)v */
  function ToUnsigned(v: Int64): (u: nat)
    ensures u < TWO64
  {
    if v >= 0 then v else TWO64 + v
  }

  /** u << 1 */
  function ShiftLeft64(u: nat): (r: nat)
    requires u < TWO64
    ensures r < TWO64
  {
    if u < TWO63 then 2 * u else 2 * u - TWO64
  }

  /** ~u */
  function Not64(u: nat): (r: nat)
    requires u < TWO64
    ensures r < TWO64
  {
    TWO64 - 1 - u
  }

  /** pb_encode_svarint */
  method EncodeSVarint(stream: OStream, value: Int64) returns (ok: bool)
    requires stream.Valid()
    modifies stream
    ensures stream.Valid()
    ensures ok <==> old(stream.Room(|VarintBytes(ZigZag(value))|))
    ensures stream.Appended(old(stream.state), old(stream.bytesWritten), if ok then VarintBytes(ZigZag(value)) else [])
  {
    var zigzagged: nat;
    if value < 0 {
      zigzagged := Not64(ShiftLeft64(ToUnsigned(value)));
    } else {
      zigzagged := ShiftLeft64(ToUnsigned(value));
    }
    ok := EncodeVarint(stream, zigzagged);
  }

  /** pb_decode_svarint: undoes zigzag. */
  method DecodeSVarint(stream: IStream) returns (ok: bool, dest: Int64)
    requires stream.Valid()
    modifies stream
    ensures stream.Valid()
    ensures ok <==> 0 < VarintLength(old(stream.Left())) <= 10
    ensures ok ==> var s := old(stream.Left()); var n := VarintLength(s);
      && ZigZag(dest) == Sum(s[..n]) % 0x1_0000_0000_0000_0000
      && stream.Left() == s[n..] && stream.state == old(stream.state) + n
  {
    var value;
    ok, value := DecodeVarint(stream);
    if !ok {
      return false, 0;
    }
    if value % 2 == 1 {
      dest := ToSigned(Not64(value / 2));
    } else {
      dest := ToSigned(value / 2);
    }
  }

  /** (int64_t)u */
  function ToSigned(u: nat): (v: Int64)
    requires u < TWO64
    ensures ToUnsigned(v) == u
  {
    if u < TWO63 then u else u - TWO64
  }

  lemma ZigZagInjective(a: Int64, b: Int64)
    ensures ZigZag(a) == ZigZag(b) <==> a == b
  {
  }
}
