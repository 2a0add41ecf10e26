/** libuv's IPv4 addresses as text, and the numerals both address families use. */
module Inet4 {
  import opened Bytes

  // ---------- Numerals ----------

  /** The value of a hexadecimal digit of either case; -1 for any other character. */
  function HexDigit(c: char): (v: int)
    ensures -1 <= v < 16
  {
    if '0' <= c <= '9' then c as int - '0' as int
    else if 'a' <= c <= 'f' then c as int - 'a' as int + 10
    else if 'A' <= c <= 'F' then c as int - 'A' as int + 10
    else -1
  }

  function DecDigit(c: char): (v: int)
    ensures -1 <= v < 10
  {
    if '0' <= c <= '9' then c as int - '0' as int else -1
  }

  function DigitChar(d: nat): (c: char)
    requires d < 16
    ensures HexDigit(c) == d && (d < 10 ==> DecDigit(c) == d)
    ensures c != ':' && c != '.' && c != '\0'
  {
    (if d < 10 then '0' as int + d else 'a' as int + d - 10) as char
  }

  /** The digits of both numerals: small letters are written, and capitals are read too. */
  lemma Digits(c: char, d: nat)
    requires d < 16
    ensures DigitChar(d) == "0123456789abcdef"[d]
    ensures HexDigit(c) == d <==> c == "0123456789abcdef"[d] || c == "0123456789ABCDEF"[d]
    ensures DecDigit(c) == d <==> d < 10 && c == "0123456789"[d]
  {
    DigitCases(c, d);
  }

  lemma DigitCases(c: char, d: nat)
    requires d < 16
    ensures HexDigit(c) == d <==>
      (d < 10 && c as int == '0' as int + d)
      || (d >= 10 && (c as int == 'a' as int + d - 10 || c as int == 'A' as int + d - 10))
  {
  }

  /** "%u" */
  function Dec(v: nat): (s: string)
    ensures |s| > 0 && forall k :: 0 <= k < |s| ==> DecDigit(s[k]) >= 0
  {
    if v < 10 then [DigitChar(v)] else Dec(v / 10) + [DigitChar(v % 10)]
  }

  /** "%x" */
  function Hex(v: nat): (s: string)
    ensures |s| > 0 && forall k :: 0 <= k < |s| ==> HexDigit(s[k]) >= 0
  {
    if v < 16 then [DigitChar(v)] else Hex(v / 16) + [DigitChar(v % 16)]
  }

  function DecValue(s: string): int
    requires forall k :: 0 <= k < |s| ==> DecDigit(s[k]) >= 0
  {
    if s == [] then 0 else DecValue(s[..|s| - 1]) * 10 + DecDigit(s[|s| - 1])
  }

  function HexValue(s: string): (v: nat)
    requires forall k :: 0 <= k < |s| ==> HexDigit(s[k]) >= 0
  {
    if s == [] then 0 else HexValue(s[..|s| - 1]) * 16 + HexDigit(s[|s| - 1])
  }

  lemma {:induction false} DecRoundTrip(v: nat)
    ensures DecValue(Dec(v)) == v
  {
    var s := Dec(v);
    if v < 10 {
      assert s[..0] == [];
    } else {
      DecRoundTrip(v / 10);
      assert s[..|s| - 1] == Dec(v / 10);
    }
  }

  lemma {:induction false} HexRoundTrip(v: nat)
    ensures HexValue(Hex(v)) == v
  {
    var s := Hex(v);
    if v < 16 {
      assert s[..0] == [];
    } else {
      HexRoundTrip(v / 16);
      assert s[..|s| - 1] == Hex(v / 16);
    }
  }

  lemma HexLength(v: nat)
    requires v < 0x1_0000
    ensures |Hex(v)| <= 4
  {
    assert v / 16 / 16 / 16 < 16;
    assert v >= 16 ==> |Hex(v)| == |Hex(v / 16)| + 1;
    assert v >= 256 ==> |Hex(v / 16)| == |Hex(v / 16 / 16)| + 1;
    assert v >= 4096 ==> |Hex(v / 16 / 16)| == |Hex(v / 16 / 16 / 16)| + 1;
  }

  lemma DecLength(v: nat)
    requires v < 256
    ensures |Dec(v)| <= 3
  {
    assert v / 10 / 10 < 10;
    assert v >= 10 ==> |Dec(v)| == |Dec(v / 10)| + 1;
    assert v >= 100 ==> |Dec(v / 10)| == |Dec(v / 10 / 10)| + 1;
  }

  /** Reading more digits does not make a number smaller. */
  lemma {:induction false} PrefixValue(s: string, d: nat)
    requires d <= |s| && forall k :: 0 <= k < |s| ==> DecDigit(s[k]) >= 0
    ensures 0 <= DecValue(s[..d]) <= DecValue(s)
  {
    if d < |s| {
      PrefixValue(s[..|s| - 1], d);
      assert s[..|s| - 1][..d] == s[..d];
    } else {
      assert s[..d] == s;
      if s != [] { PrefixValue(s[..|s| - 1], |s| - 1); }
      assert s != [] ==> s[..|s| - 1][..|s| - 1] == s[..|s| - 1];
    }
  }

  lemma {:induction false} NoLeadingZero(v: nat, d: nat)
    requires 0 < d < |Dec(v)|
    ensures DecValue(Dec(v)[..d]) > 0
  {
    var s := Dec(v);
    assert v >= 10 && s[..|s| - 1] == Dec(v / 10);
    if d < |s| - 1 {
      NoLeadingZero(v / 10, d);
      assert s[..d] == Dec(v / 10)[..d];
    } else {
      DecRoundTrip(v / 10);
    }
  }

  // ---------- Dotted quads ----------

  /** The octets from number `k` on, each behind a full stop. */
  function DotTail(o: seq<Byte>, k: nat): string
    requires |o| == 4 && k <= 4
    decreases 4 - k
  {
    if k == 4 then "" else "." + (Dec(o[k]) + DotTail(o, k + 1))
  }

  function Dotted(o: seq<Byte>): string
    requires |o| == 4
  {
    Dec(o[0]) + LaterOctets(o)
  }

  function LaterOctets(o: seq<Byte>): (s: string)
    requires |o| == 4
    ensures s != "" && s[0] == '.'
  {
    DotTail(o, |o| - 3)  // not a literal, or the solver unfolds it all
  }

  /** The octets before number `k`, each with a full stop behind it. */
  function DotHead(o: seq<Byte>, k: nat): string
    requires k <= |o|
  {
    if k == 0 then "" else DotHead(o, k - 1) + Dec(o[k - 1]) + "."
  }

  lemma {:induction false} HeadTail(o: seq<Byte>, k: nat)
    requires |o| == 4 && k < 4
    ensures DotHead(o, k) + Dec(o[k]) + DotTail(o, k + 1) == Dotted(o)
  {
    if k > 0 {
      HeadTail(o, k - 1);
      var before, rest := DotHead(o, k - 1) + Dec(o[k - 1]), Dec(o[k]) + DotTail(o, k + 1);
      Regroup(before, ".", rest);
      Regroup(before + ".", Dec(o[k]), DotTail(o, k + 1));
    } else {
      assert DotHead(o, 0) + Dec(o[0]) == Dec(o[0]);
    }
  }

  lemma DottedIs(o: seq<Byte>)
    requires |o| == 4
    ensures DotHead(o, 3) + Dec(o[3]) == Dotted(o)
  {
    HeadTail(o, 3);
    assert DotHead(o, 3) + Dec(o[3]) + "" == DotHead(o, 3) + Dec(o[3]);
  }

  lemma DottedLength(o: seq<Byte>)
    requires |o| == 4
    ensures |Dotted(o)| <= 15
  {
    DottedIs(o);
    DecLength(o[0]);
    DecLength(o[1]);
    DecLength(o[2]);
    DecLength(o[3]);
    assert |DotHead(o, 1)| == |Dec(o[0])| + 1;
    assert |DotHead(o, 2)| == |DotHead(o, 1)| + |Dec(o[1])| + 1;
    assert |DotHead(o, 3)| == |DotHead(o, 2)| + |Dec(o[2])| + 1;
  }

  /** What is left of a dotted quad, `d` digits into octet `k`. */
  function Rest(o: seq<Byte>, k: nat, d: nat): string
    requires |o| == 4 && k < 4 && d <= |Dec(o[k])|
  {
    Dec(o[k])[d..] + DotTail(o, k + 1)
  }

  /** The parser, at octet `k` with `d` of its digits read, on the way through the text of `o`. */
  ghost predicate OnTrack(o: seq<Byte>, left: string, tmp: seq<Byte>, tp: nat, sawDigit: bool, d: nat) {
    && |o| == 4 && tp < 4 && |tmp| == 4 && d <= |Dec(o[tp])| && left == Rest(o, tp, d)
    && (forall j :: 0 <= j < tp ==> tmp[j] == o[j])
    && tmp[tp] == DecValue(Dec(o[tp])[..d]) && (sawDigit <==> d > 0)
  }

  lemma DigitOnTrack(o: seq<Byte>, left: string, tmp: seq<Byte>, tp: nat, sawDigit: bool, d: nat)
    requires OnTrack(o, left, tmp, tp, sawDigit, d) && left != "" && DecDigit(left[0]) >= 0
    ensures !(sawDigit && tmp[tp] == 0) && tmp[tp] * 10 + DecDigit(left[0]) <= 255
    ensures OnTrack(o, left[1..], tmp[tp := tmp[tp] * 10 + DecDigit(left[0])], tp, true, d + 1)
  {
    var s := Dec(o[tp]);
    DigitNext(o, left, tp, d);
    if d > 0 { NoLeadingZero(o[tp], d); }
    DecRoundTrip(o[tp]);
    PrefixValue(s, d + 1);
    assert s[..d + 1][..d] == s[..d];
  }

  lemma DigitNext(o: seq<Byte>, left: string, k: nat, d: nat)
    requires |o| == 4 && k < 4 && d <= |Dec(o[k])| && left == Rest(o, k, d) && left != "" && DecDigit(left[0]) >= 0
    ensures d < |Dec(o[k])| && left[0] == Dec(o[k])[d] && left[1..] == Rest(o, k, d + 1)
  {
    var s := Dec(o[k]);
    assert s[|s|..] == "" && (DotTail(o, k + 1) == "" || DotTail(o, k + 1)[0] == '.');
    assert left[1..] == s[d + 1..] + DotTail(o, k + 1);
  }

  lemma DotOnTrack(o: seq<Byte>, left: string, tmp: seq<Byte>, tp: nat, sawDigit: bool, d: nat)
    requires OnTrack(o, left, tmp, tp, sawDigit, d) && left != "" && DecDigit(left[0]) < 0
    ensures left[0] == '.' && sawDigit && tp < 3
    ensures OnTrack(o, left[1..], tmp[tp + 1 := 0], tp + 1, false, 0)
  {
    var s := Dec(o[tp]);
    assert d == |s|;
    DecRoundTrip(o[tp]);
    assert s[..d] == s;
    assert left == DotTail(o, tp + 1);
    assert left[1..] == Dec(o[tp + 1]) + DotTail(o, tp + 2);
    assert Dec(o[tp + 1])[0..] == Dec(o[tp + 1]);
  }

  /** What has been read is canonical. */
  ghost predicate Canonical(done: string, tmp: seq<Byte>, tp: nat, sawDigit: bool) {
    tp < 4 && |tmp| == 4 && done == DotHead(tmp, tp) + (if sawDigit then Dec(tmp[tp]) else "")
  }

  lemma {:induction false} HeadDepends(a: seq<Byte>, b: seq<Byte>, k: nat)
    requires k <= |a| && k <= |b| && forall j :: 0 <= j < k ==> a[j] == b[j]
    ensures DotHead(a, k) == DotHead(b, k)
  {
    if k > 0 {
      HeadDepends(a, b, k - 1);
    }
  }

  lemma DigitCanonical(done: string, tmp: seq<Byte>, tp: nat, sawDigit: bool, c: char)
    requires Canonical(done, tmp, tp, sawDigit) && DecDigit(c) >= 0 && !(sawDigit && tmp[tp] == 0)
    requires !sawDigit ==> tmp[tp] == 0
    requires tmp[tp] * 10 + DecDigit(c) <= 255
    ensures Canonical(done + [c], tmp[tp := tmp[tp] * 10 + DecDigit(c)], tp, true)
  {
    var nw := tmp[tp] * 10 + DecDigit(c);
    HeadDepends(tmp, tmp[tp := nw], tp);
    assert c == DigitChar(DecDigit(c));
    if sawDigit {
      assert nw / 10 == tmp[tp] && nw % 10 == DecDigit(c);
      assert Dec(nw) == Dec(tmp[tp]) + [c];
    } else {
      assert Dec(nw) == [c];
    }
  }

  lemma DotCanonical(done: string, tmp: seq<Byte>, tp: nat)
    requires Canonical(done, tmp, tp, true) && tp < 3
    ensures Canonical(done + ".", tmp[tp + 1 := 0], tp + 1, false)
  {
    HeadDepends(tmp, tmp[tp + 1 := 0], tp + 1);
  }

  /** What inet_pton4's loop keeps, `i` characters read. */
  ghost predicate Parsed(src: string, i: nat, o: seq<Byte>, tmp: seq<Byte>, tp: nat, sawDigit: bool, d: nat) {
    && i <= |src| && Canonical(src[..i], tmp, tp, sawDigit) && (!sawDigit ==> tmp[tp] == 0)
    && (|o| == 4 && src == Dotted(o) ==> OnTrack(o, src[i..], tmp, tp, sawDigit, d))
  }

  lemma ParsedDigit(src: string, i: nat, o: seq<Byte>, tmp: seq<Byte>, tp: nat, sawDigit: bool, d: nat)
    requires i < |src| && Parsed(src, i, o, tmp, tp, sawDigit, d) && DecDigit(src[i]) >= 0
    ensures var nw := tmp[tp] * 10 + DecDigit(src[i]);
      if (sawDigit && tmp[tp] == 0) || nw > 255 then !(|o| == 4 && src == Dotted(o))
      else Parsed(src, i + 1, o, tmp[tp := nw], tp, true, d + 1)
  {
    assert src[..i + 1] == src[..i] + [src[i]] && src[i..][1..] == src[i + 1..];
    if |o| == 4 && src == Dotted(o) { DigitOnTrack(o, src[i..], tmp, tp, sawDigit, d); }
    if !(sawDigit && tmp[tp] == 0) && tmp[tp] * 10 + DecDigit(src[i]) <= 255 {
      DigitCanonical(src[..i], tmp, tp, sawDigit, src[i]);
    }
  }

  lemma ParsedDot(src: string, i: nat, o: seq<Byte>, tmp: seq<Byte>, tp: nat, sawDigit: bool, d: nat)
    requires i < |src| && Parsed(src, i, o, tmp, tp, sawDigit, d) && DecDigit(src[i]) < 0
    ensures if src[i] != '.' || !sawDigit || tp == 3 then !(|o| == 4 && src == Dotted(o))
      else Parsed(src, i + 1, o, tmp[tp + 1 := 0], tp + 1, false, 0)
  {
    assert src[..i + 1] == src[..i] + [src[i]] && src[i..][1..] == src[i + 1..];
    if |o| == 4 && src == Dotted(o) { DotOnTrack(o, src[i..], tmp, tp, sawDigit, d); }
    if src[i] == '.' && sawDigit && tp < 3 { DotCanonical(src[..i], tmp, tp); }
  }

  lemma ParsedAll(src: string, o: seq<Byte>, tmp: seq<Byte>, tp: nat, sawDigit: bool, d: nat)
    requires Parsed(src, |src|, o, tmp, tp, sawDigit, d)
    ensures tp == 3 && sawDigit ==> src == Dotted(tmp)
    ensures |o| == 4 && src == Dotted(o) ==> tp == 3 && sawDigit && tmp == o
  {
    assert src[..|src|] == src && src[|src|..] == "";
    if tp == 3 { DottedIs(tmp); }
    if |o| == 4 && src == Dotted(o) { EndOnTrack(o, tmp, tp, sawDigit, d); }
  }

  /** A digit of inet_pton4. */
  method OnDigit(src: string, i: nat, digit: int, ghost o: seq<Byte>, tmp: seq<Byte>, tp: nat, sawDigit: bool,
      octets: nat, ghost d: nat)
    returns (ok: bool, tmp': seq<Byte>, octets': nat)
    requires i < |src| && Parsed(src, i, o, tmp, tp, sawDigit, d) && octets == tp + (if sawDigit then 1 else 0)
    requires digit == DecDigit(src[i]) >= 0
    ensures ok ==> Parsed(src, i + 1, o, tmp', tp, true, d + 1) && octets' == tp + 1
    ensures !ok ==> !(|o| == 4 && src == Dotted(o))
  {
    ParsedDigit(src, i, o, tmp, tp, sawDigit, d);
    var nw := tmp[tp] * 10 + digit;
    tmp', octets' := tmp, octets;
    if sawDigit && tmp[tp] == 0 {
      return false, tmp', octets';
    }
    if nw > 255 {
      return false, tmp', octets';
    }
    tmp' := tmp[tp := nw];
    if !sawDigit {
      octets' := octets + 1;
      if octets' > 4 {
        return false, tmp', octets';
      }
    }
    ok := true;
  }

  /** inet_pton4: accepts exactly the canonical dotted quads. */
  method Pton4(src: string, ghost o: seq<Byte>) returns (ok: bool, dst: seq<Byte>)
    ensures ok ==> |dst| == 4 && src == Dotted(dst)
    ensures |o| == 4 && src == Dotted(o) ==> ok && dst == o
  {
    var sawDigit, octets, tp := false, 0, 0;
    var tmp: seq<Byte> := [0, 0, 0, 0];
    var i := 0;
    ghost var d := 0;
    StartParsed(src, o);
    while i < |src|
      invariant Parsed(src, i, o, tmp, tp, sawDigit, d) && octets == tp + (if sawDigit then 1 else 0)
    {
      var ch := src[i];
      var digit := DecDigit(ch);
      if digit >= 0 {
        var valid;
        valid, tmp, octets := OnDigit(src, i, digit, o, tmp, tp, sawDigit, octets, d);
        if !valid {
          return false, [];
        }
        d := d + 1;
        sawDigit := true;
      } else {
        ParsedDot(src, i, o, tmp, tp, sawDigit, d);
        if ch != '.' || !sawDigit {
          return false, [];
        }
        if octets == 4 {
          return false, [];
        }
        tp := tp + 1;
        tmp := tmp[tp := 0];
        sawDigit := false;
        d := 0;
      }
      i := i + 1;
    }
    ParsedAll(src, o, tmp, tp, sawDigit, d);
    if octets < 4 {
      return false, [];
    }
    return true, tmp;
  }

  lemma StartParsed(src: string, o: seq<Byte>)
    ensures Parsed(src, 0, o, [0, 0, 0, 0], 0, false, 0)
  {
    assert src[..0] == "" && src[0..] == src;
    if |o| == 4 {
      assert Dec(o[0])[0..] == Dec(o[0]) && Dec(o[0])[..0] == "";
    }
  }

  lemma EndOnTrack(o: seq<Byte>, tmp: seq<Byte>, tp: nat, sawDigit: bool, d: nat)
    requires OnTrack(o, "", tmp, tp, sawDigit, d)
    ensures tp == 3 && sawDigit && tmp == o
  {
    assert |DotTail(o, tp + 1)| == 0;
    assert d == |Dec(o[tp])|;
    assert Dec(o[tp])[..d] == Dec(o[tp]);
    DecRoundTrip(o[tp]);
  }

  datatype Result = Ok(text: string) | ENOSPC

  /** inet_ntop4 */
  method Ntop4(src: seq<Byte>, size: nat) returns (r: Result)
    requires |src| == 4
    ensures r == if |Dotted(src)| < size then Ok(Dotted(src)) else ENOSPC
  {
    var tmp := Dec(src[0]) + "." + Dec(src[1]) + "." + Dec(src[2]) + "." + Dec(src[3]);
    DottedIs(src);
    assert DotHead(src, 1) == Dec(src[0]) + ".";
    assert DotHead(src, 2) == Dec(src[0]) + "." + Dec(src[1]) + ".";
    if |tmp| >= size {
      return ENOSPC;
    }
    return Ok(tmp);
  }

  /** Every address comes back from its text. */
  method RoundTrip4(src: seq<Byte>) returns (dst: seq<Byte>)
    requires |src| == 4
    ensures dst == src
  {
    DottedLength(src);
    var r := Ntop4(src, 16);
    var ok;
    ok, dst := Pton4(r.text, src);
  }
}
