/** libuv's printer of IPv6 addresses, and the round trip. */
module Inet6 {
  import opened Arith
  import opened Bytes
  import opened Inet4
  import opened Inet6Forms
  import opened Inet6Parser

  type U16 = w: nat | w < 0x1_0000

  function Word(src: seq<Byte>, k: nat): U16
    requires |src| == 16 && k < 8
  {
    var high: nat := src[2 * k];
    high * 256 + src[2 * k + 1]
  }

  function Words(src: seq<Byte>): (words: seq<U16>)
    requires |src| == 16
    ensures |words| == 8
  {
    seq(8, k requires 0 <= k < 8 => Word(src, k))
  }

  predicate ZeroRun(words: seq<U16>, base: int, len: int) {
    0 <= base && 0 < len && base + len <= |words| && forall k :: base <= k < base + len ==> words[k] == 0
  }

  /** The longest run of zeros within the first `n` words, the leftmost one if there are several; -1 if
      there is none. */
  ghost predicate IsBest(words: seq<U16>, n: nat, base: int, len: int) {
    && (base == -1 || (ZeroRun(words, base, len) && base + len <= n))
    && (forall b, l :: ZeroRun(words, b, l) && b + l <= n ==> base != -1 && (l < len || (l == len && base <= b)))
  }

  /** The run of zeros that "::" stands for: sections 4.2.2 and 4.2.3 of RFC 5952. */
  ghost predicate IsGap(words: seq<U16>, base: int, len: int) {
    if base == -1 then forall b, l :: ZeroRun(words, b, l) ==> l < 2
    else len >= 2 && IsBest(words, |words|, base, len)
  }

  /** The run that ends at `i`: it starts at `cur`, and cannot be longer. */
  predicate Current(words: seq<U16>, i: nat, cur: int) {
    && i <= |words|
    && (cur == -1 ==> i == 0 || words[i - 1] != 0)
    && (cur != -1 ==> ZeroRun(words, cur, i - cur) && (cur == 0 || words[cur - 1] != 0))
  }

  /** A run that has ended replaces the best one if it is longer. */
  lemma RunEnds(words: seq<U16>, i: nat, cur: int, base: int, len: int)
    requires Current(words, i, cur) && cur != -1 && IsBest(words, cur, base, len)
    ensures if base == -1 || i - cur > len then IsBest(words, i, cur, i - cur) else IsBest(words, i, base, len)
  {
    forall b, l | ZeroRun(words, b, l) && b + l <= i && b + l > cur
      ensures b >= cur
    {
    }
  }

  lemma NonzeroWord(words: seq<U16>, i: nat, base: int, len: int)
    requires i < |words| && words[i] != 0 && IsBest(words, i, base, len)
    ensures IsBest(words, i + 1, base, len)
  {
    forall b, l | ZeroRun(words, b, l) && b + l <= i + 1 ensures b + l <= i {
    }
  }

  /** The search for the run of zeros to leave out. */
  method FindGap(words: seq<U16>) returns (base: int, len: int)
    requires |words| == 8
    ensures IsGap(words, base, len)
  {
    base, len := -1, 0;
    var curBase, curLen := -1, 0;
    var i := 0;
    while i < 8
      invariant 0 <= i <= 8 && Current(words, i, curBase) && (curBase != -1 ==> curLen == i - curBase)
      invariant IsBest(words, if curBase == -1 then i else curBase, base, len)
    {
      if words[i] == 0 {
        if curBase == -1 {
          curBase, curLen := i, 1;
        } else {
          curLen := curLen + 1;
        }
      } else {
        if curBase != -1 {
          RunEnds(words, i, curBase, base, len);
          if base == -1 || curLen > len {
            base, len := curBase, curLen;
          }
          curBase := -1;
        }
        NonzeroWord(words, i, base, len);
      }
      i := i + 1;
    }
    if curBase != -1 {
      RunEnds(words, i, curBase, base, len);
      if base == -1 || curLen > len {
        base, len := curBase, curLen;
      }
    }
    if base != -1 && len < 2 {
      base := -1;
    }
  }

  /** Whether the last four bytes are written as a dotted quad. */
  predicate Encapsulated(words: seq<U16>, base: int, len: int)
    requires |words| == 8
  {
    base == 0 && (len == 6 || (len == 5 && words[5] == 0xffff))
  }

  /** "%x" of a word is a group. */
  function WordItem(w: U16): (it: Item)
    ensures it.G? && ValidItem(it)
  {
    HexLength(w);
    G(Hex(w))
  }

  function Groups(words: seq<U16>, from: nat, to: nat): (g: seq<Item>)
    requires from <= to <= |words|
    ensures |g| == to - from && (forall k :: 0 <= k < |g| ==> g[k].G? && ValidItem(g[k]))
  {
    if from == to then [] else Groups(words, from, to - 1) + [WordItem(words[to - 1])]
  }

  predicate ValidGap(base: int, len: int) {
    base == -1 || (0 <= base && 2 <= len && base + len <= 8)
  }

  /** What is written, as items: the gap's words are left out, and the last four bytes may be a quad. */
  function Items(words: seq<U16>, quad: seq<Byte>, base: int, len: int): seq<Item>
    requires |words| == 8 && ValidGap(base, len)
  {
    if base == -1 then Groups(words, 0, 8)
    else if Encapsulated(words, base, len) then Groups(words, len, 6) + [V4(quad)]
    else Groups(words, 0, base) + Groups(words, base + len, 8)
  }

  function ItemsOf(src: seq<Byte>, base: int, len: int): seq<Item>
    requires |src| == 16 && ValidGap(base, len)
  {
    Items(Words(src), src[12..16], base, len)
  }

  lemma SnocBytes(g: seq<Item>, it: Item)
    requires ValidItem(it) && forall k :: 0 <= k < |g| ==> ValidItem(g[k])
    ensures AllBytes(g + [it]) == AllBytes(g) + ItemBytes(it)
  {
    assert (g + [it])[..|g|] == g;
  }

  function Pair(w: U16): (b: seq<Byte>)
    ensures |b| == 2
  {
    [w / 256, w % 256]
  }

  function Pairs(words: seq<U16>, from: nat, to: nat): seq<Byte>
    requires from <= to <= |words|
  {
    if from == to then [] else Pairs(words, from, to - 1) + Pair(words[to - 1])
  }

  lemma WordPair(w: U16)
    ensures ItemBytes(WordItem(w)) == Pair(w)
  {
    HexRoundTrip(w);
  }

  lemma {:induction false} GroupsPairs(words: seq<U16>, from: nat, to: nat)
    requires from <= to <= |words|
    ensures AllBytes(Groups(words, from, to)) == Pairs(words, from, to)
  {
    if from < to {
      GroupsPairs(words, from, to - 1);
      OneMoreGroup(Groups(words, from, to - 1), words[to - 1]);
    }
  }

  lemma OneMoreGroup(g: seq<Item>, w: U16)
    requires forall k :: 0 <= k < |g| ==> ValidItem(g[k])
    ensures AllBytes(g + [WordItem(w)]) == AllBytes(g) + Pair(w)
  {
    WordPair(w);
    SnocBytes(g, WordItem(w));
  }

  lemma {:induction false} PairsBytes(src: seq<Byte>, from: nat, to: nat)
    requires |src| == 16 && from <= to <= 8
    ensures Pairs(Words(src), from, to) == src[2 * from..2 * to]
  {
    if from < to {
      PairsBytes(src, from, to - 1);
      assert Pair(Word(src, to - 1)) == [src[2 * to - 2], src[2 * to - 1]];
      TwoMore(src, 2 * from, 2 * to - 2);
    }
  }

  /** Words written as groups are their bytes. */
  lemma GroupsBytes(src: seq<Byte>, from: nat, to: nat)
    requires |src| == 16 && from <= to <= 8
    ensures AllBytes(Groups(Words(src), from, to)) == src[2 * from..2 * to]
  {
    GroupsPairs(Words(src), from, to);
    PairsBytes(src, from, to);
  }

  lemma TwoMore(src: seq<Byte>, i: nat, j: nat)
    requires i <= j && j + 2 <= |src|
    ensures src[i..j + 2] == src[i..j] + [src[j], src[j + 1]]
  {
  }

  /** The items, with the gap where the zeros are, are the address. */
  lemma AddressOf(src: seq<Byte>, base: int, len: int)
    requires |src| == 16 && (base == -1 || (2 <= len && ZeroRun(Words(src), base, len)))
    ensures ValidForm(ItemsOf(src, base, len), base) && Address(ItemsOf(src, base, len), base) == src
  {
    if base == -1 {
      GroupsBytes(src, 0, 8);
      assert src[0..16] == src;
    } else if Encapsulated(Words(src), base, len) {
      QuadAddress(src, len);
    } else {
      GapAddress(src, base, len);
    }
  }

  lemma QuadAddress(src: seq<Byte>, len: nat)
    requires |src| == 16 && 2 <= len <= 6 && ZeroRun(Words(src), 0, len)
    ensures var items := Groups(Words(src), len, 6) + [V4(src[12..16])];
      ValidForm(items, 0) && Address(items, 0) == src
  {
    GroupsBytes(src, len, 6);
    AroundGap(src, 0, len, [], src[2 * len..16]);
    SliceJoin(src, 2 * len, 12, 16);
    QuadForm(Groups(Words(src), len, 6), src[12..16]);
  }

  lemma SliceJoin(src: seq<Byte>, i: nat, j: nat, k: nat)
    requires i <= j <= k <= |src|
    ensures src[i..j] + src[j..k] == src[i..k]
  {
  }

  lemma QuadForm(groups: seq<Item>, quad: seq<Byte>)
    requires |quad| == 4 && forall k :: 0 <= k < |groups| ==> groups[k].G? && ValidItem(groups[k])
    requires |AllBytes(groups)| <= 10
    ensures ValidForm(groups + [V4(quad)], 0)
    ensures Address(groups + [V4(quad)], 0) == Fill([], AllBytes(groups) + quad)
  {
    var items := groups + [V4(quad)];
    SnocBytes(groups, V4(quad));
    ValidQuad(groups, V4(quad));
    assert [] + items == items;
    SplitAddress([], items);
  }

  lemma ValidQuad(groups: seq<Item>, it: Item)
    requires it.V4? && ValidItem(it) && forall k :: 0 <= k < |groups| ==> groups[k].G? && ValidItem(groups[k])
    requires |AllBytes(groups)| <= 10
    ensures ValidForm(groups + [it], 0)
  {
    SnocBytes(groups, it);
    var items := groups + [it];
    assert forall k :: 0 <= k < |items| - 1 ==> items[k] == groups[k];
  }

  /** The address of items around a gap. */
  lemma SplitAddress(a: seq<Item>, b: seq<Item>)
    requires (forall k :: 0 <= k < |a| ==> ValidItem(a[k])) && (forall k :: 0 <= k < |b| ==> ValidItem(b[k]))
    requires ValidForm(a + b, |a|) && |AllBytes(a)| + |AllBytes(b)| <= 16
    ensures Address(a + b, |a|) == Fill(AllBytes(a), AllBytes(b))
  {
    assert (a + b)[..|a|] == a && (a + b)[|a|..] == b;
  }

  lemma GapAddress(src: seq<Byte>, base: nat, len: nat)
    requires |src| == 16 && 2 <= len && ZeroRun(Words(src), base, len)
    ensures var items := Groups(Words(src), 0, base) + Groups(Words(src), base + len, 8);
      ValidForm(items, base) && Address(items, base) == src
  {
    var a, b := Groups(Words(src), 0, base), Groups(Words(src), base + len, 8);
    GroupsBytes(src, 0, base);
    GroupsBytes(src, base + len, 8);
    AroundGap(src, base, len, AllBytes(a), AllBytes(b));
    AllGroups(a, b);
    SplitAddress(a, b);
  }

  /** The bytes around a gap, with zeros in it. */
  lemma AroundGap(src: seq<Byte>, base: nat, len: nat, x: seq<Byte>, y: seq<Byte>)
    requires |src| == 16 && 0 < len && ZeroRun(Words(src), base, len)
    requires x == src[0..2 * base] && y == src[2 * (base + len)..16]
    ensures |x| + |y| + 2 * len == 16 && Fill(x, y) == src
  {
    ZerosInGap(src, base, len);
  }

  /** Groups around a gap are a form. */
  lemma AllGroups(a: seq<Item>, b: seq<Item>)
    requires forall k :: 0 <= k < |a| ==> ValidItem(a[k]) && a[k].G?
    requires forall k :: 0 <= k < |b| ==> ValidItem(b[k]) && b[k].G?
    requires |AllBytes(a)| + |AllBytes(b)| <= 14
    ensures ValidForm(a + b, |a|)
  {
    BytesAppend(a, b);
    var ab := a + b;
    assert forall k :: 0 <= k < |ab| ==> ValidItem(ab[k]) && ab[k].G?;
  }

  lemma ZerosInGap(src: seq<Byte>, base: nat, len: nat)
    requires |src| == 16 && ZeroRun(Words(src), base, len)
    ensures src == src[0..2 * base] + Zeros(2 * len) + src[2 * (base + len)..16]
  {
    forall k | 2 * base <= k < 2 * (base + len) ensures src[k] == 0 {
      assert Words(src)[k / 2] == 0;
    }
  }

  /** The copy of the bytes into words. */
  method CopyWords(src: seq<Byte>) returns (words: seq<U16>)
    requires |src| == 16
    ensures words == Words(src)
  {
    words := [0, 0, 0, 0, 0, 0, 0, 0];
    var i := 0;
    while i < 16
      invariant 0 <= i <= 16 && |words| == 8
      invariant forall k :: 0 <= k < 8 ==>
        words[k] == if 2 * k + 1 < i then Word(src, k) else if 2 * k < i then Word(src, k) - src[2 * k + 1] else 0
    {
      var byte: nat := src[i];
      words := words[i / 2 := words[i / 2] + (if i % 2 == 0 then byte * 256 else byte)];  // or: the bits are disjoint
      i := i + 1;
    }
  }

  /** The number of the item that word `i` is written as; in the gap, of the next one. */
  function ItemOf(base: int, len: int, i: nat): int {
    if base == -1 || i < base then i else if i <= base + len then base else i - len
  }

  /** The colons before word `i`, of `n` items in all. */
  function Colons(n: nat, base: int, len: int, i: nat): string {
    if base != -1 && base <= i <= base + len then (if i == base then "::" else ":")
    else if i == 0 || ItemOf(base, len, i) >= n then "" else ":"
  }

  /** What is still to be written before word `i`. */
  function Pending(items: seq<Item>, base: int, len: int, i: nat): string
    requires (forall k :: 0 <= k < |items| ==> ValidItem(items[k])) && 0 <= ItemOf(base, len, i) <= |items|
  {
    Colons(|items|, base, len, i) + TextFrom(items, base, ItemOf(base, len, i))
  }

  /** A word outside the gap. */
  predicate Outside(base: int, len: int, i: nat) {
    base == -1 || i < base || (0 <= base && base + len <= i)
  }

  lemma ColonsNext(n: nat, items: seq<Item>, base: int, len: int, i: nat)
    requires n == |items| && -1 <= base && (base == -1 || 2 <= len) && Outside(base, len, i) && ItemOf(base, len, i) < n
    ensures ItemOf(base, len, i + 1) == ItemOf(base, len, i) + 1
    ensures Colons(n, base, len, i + 1) == Sep(items, base, ItemOf(base, len, i))
    ensures i < base || base == -1 ==> Colons(n, base, len, i) == if i == 0 then "" else ":"
    ensures base != -1 && base + len <= i ==> Colons(n, base, len, i) == ":"
  {
  }

  lemma Unroll(items: seq<Item>, gap: int, k: nat)
    requires k < |items| && forall j :: 0 <= j < |items| ==> ValidItem(items[j])
    ensures TextFrom(items, gap, k) == ItemText(items[k]) + (Sep(items, gap, k) + TextFrom(items, gap, k + 1))
  {
  }

  /** Writing a colon of the gap. */
  lemma WriteColon(items: seq<Item>, base: nat, len: int, i: nat)
    requires ValidForm(items, base) && 2 <= len && base <= i < base + len
    ensures Pending(items, base, len, i) == (if i == base then ":" else "") + Pending(items, base, len, i + 1)
  {
    var t := TextFrom(items, base, base);
    Regroup(":", ":", t);
    assert "" + (":" + t) == ":" + t;
    assert ":" + ":" == "::";
  }

  /** The number of items is that of the end. */
  lemma ItemsCount(words: seq<U16>, quad: seq<Byte>, base: int, len: int)
    requires |words| == 8 && ValidGap(base, len)
    ensures |Items(words, quad, base, len)| == ItemOf(base, len, if Encapsulated(words, base, len) then 7 else 8)
  {
  }

  lemma {:induction false} GroupAt(words: seq<U16>, from: nat, to: nat, k: nat)
    requires from <= to <= |words| && k < to - from
    ensures Groups(words, from, to)[k] == WordItem(words[from + k])
  {
    if from + k + 1 < to {
      GroupAt(words, from, to - 1, k);
    }
  }

  /** The item that word `i` is written as. */
  lemma ItemAt(words: seq<U16>, quad: seq<Byte>, base: int, len: int, i: nat)
    requires |words| == 8 && i < 8 && ValidGap(base, len) && Outside(base, len, i)
    requires Encapsulated(words, base, len) ==> i <= 6
    ensures 0 <= ItemOf(base, len, i) < |Items(words, quad, base, len)|
    ensures Items(words, quad, base, len)[ItemOf(base, len, i)] ==
      if Encapsulated(words, base, len) && i == 6 then V4(quad) else WordItem(words[i])
  {
    if base == -1 {
      GroupAt(words, 0, 8, i);
    } else if Encapsulated(words, base, len) {
      EncapsulatedAt(words, quad, base, len, i);
    } else if i < base {
      GroupAt(words, 0, base, i);
    } else {
      GroupAt(words, base + len, 8, i - base - len);
    }
  }

  lemma EncapsulatedAt(words: seq<U16>, quad: seq<Byte>, base: int, len: int, i: nat)
    requires |words| == 8 && i <= 6 && ValidGap(base, len) && Outside(base, len, i) && base != -1
    requires Encapsulated(words, base, len)
    ensures 0 <= ItemOf(base, len, i) < |Items(words, quad, base, len)|
    ensures Items(words, quad, base, len)[ItemOf(base, len, i)] == if i == 6 then V4(quad) else WordItem(words[i])
  {
    if i < 6 { GroupAt(words, len, 6, i - len); }
  }

  /** Everything before word `i` has been written. */
  ghost predicate Formatted(words: seq<U16>, quad: seq<Byte>, base: int, len: int, i: nat, tmp: string) {
    && |words| == 8 && ValidGap(base, len) && ValidForm(Items(words, quad, base, len), base)
    && 0 <= ItemOf(base, len, i) <= |Items(words, quad, base, len)|
    && tmp + Pending(Items(words, quad, base, len), base, len, i) == Text(Items(words, quad, base, len), base)
  }

  lemma FormatStart(words: seq<U16>, quad: seq<Byte>, base: int, len: int)
    requires |words| == 8 && ValidGap(base, len) && ValidForm(Items(words, quad, base, len), base)
    ensures Formatted(words, quad, base, len, 0, "")
  {
    var items := Items(words, quad, base, len);
    assert "" + Pending(items, base, len, 0) == Text(items, base);
  }

  lemma FormatGap(words: seq<U16>, quad: seq<Byte>, base: int, len: int, i: nat, tmp: string)
    requires Formatted(words, quad, base, len, i, tmp) && base != -1 && base <= i < base + len
    ensures Formatted(words, quad, base, len, i + 1, if i == base then tmp + ":" else tmp)
  {
    var items := Items(words, quad, base, len);
    WriteColon(items, base, len, i);
    Regroup(tmp, if i == base then ":" else "", Pending(items, base, len, i + 1));
    assert tmp + "" == tmp;
  }

  lemma FormatItem(words: seq<U16>, quad: seq<Byte>, base: int, len: int, i: nat, tmp: string)
    requires |quad| == 4 && Formatted(words, quad, base, len, i, tmp)
    requires Outside(base, len, i) && i < 8 && (Encapsulated(words, base, len) ==> i <= 6)
    ensures Formatted(words, quad, base, len, i + 1, (if i == 0 then tmp else tmp + ":")
      + (if Encapsulated(words, base, len) && i == 6 then Dotted(quad) else Hex(words[i])))
  {
    ItemAt(words, quad, base, len, i);
    PendingStep(Items(words, quad, base, len), base, len, i, tmp);
  }

  lemma PendingStep(items: seq<Item>, base: int, len: int, i: nat, tmp: string)
    requires ValidForm(items, base) && -1 <= base && (base == -1 || 2 <= len) && Outside(base, len, i)
    requires ItemOf(base, len, i) < |items|
    ensures ItemOf(base, len, i + 1) == ItemOf(base, len, i) + 1
    ensures tmp + Pending(items, base, len, i) ==
      ((if i == 0 then tmp else tmp + ":") + ItemText(items[ItemOf(base, len, i)])) + Pending(items, base, len, i + 1)
  {
    var k := ItemOf(base, len, i);
    var colon, rest := if i == 0 then "" else ":", Sep(items, base, k) + TextFrom(items, base, k + 1);
    PendingParts(items, base, len, i, k);
    ThreeParts(tmp, colon, ItemText(items[k]), rest);
  }

  lemma PendingParts(items: seq<Item>, base: int, len: int, i: nat, k: nat)
    requires ValidForm(items, base) && -1 <= base && (base == -1 || 2 <= len) && Outside(base, len, i)
    requires k == ItemOf(base, len, i) < |items|
    ensures ItemOf(base, len, i + 1) == k + 1
    ensures Pending(items, base, len, i) ==
      (if i == 0 then "" else ":") + (ItemText(items[k]) + (Sep(items, base, k) + TextFrom(items, base, k + 1)))
    ensures Pending(items, base, len, i + 1) == Sep(items, base, k) + TextFrom(items, base, k + 1)
  {
    ColonsNext(|items|, items, base, len, i);
    Unroll(items, base, k);
  }

  lemma ThreeParts(tmp: string, colon: string, item: string, rest: string)
    ensures tmp + (colon + (item + rest)) == ((if colon == "" then tmp else tmp + colon) + item) + rest
  {
    Regroup(tmp, colon, item + rest);
    Regroup(tmp + colon, item, rest);
    assert tmp + "" == tmp;
  }

  lemma FormatDone(words: seq<U16>, quad: seq<Byte>, base: int, len: int, tmp: string)
    requires |words| == 8 && ValidGap(base, len)
    requires Formatted(words, quad, base, len, if Encapsulated(words, base, len) then 7 else 8, tmp)
    ensures Text(Items(words, quad, base, len), base) == if base != -1 && base + len == 8 then tmp + ":" else tmp
  {
    ItemsCount(words, quad, base, len);
    assert tmp + ("" + "") == tmp && ":" + "" == ":";
  }

  /** One turn of the formatting loop. */
  method FormatWord(words: seq<U16>, quad: seq<Byte>, base: int, len: int, i: nat, tmp0: string) returns (tmp: string)
    requires |quad| == 4 && i < 8 && Formatted(words, quad, base, len, i, tmp0)
      && (Encapsulated(words, base, len) ==> i <= 6)
    ensures Formatted(words, quad, base, len, i + 1, tmp)
  {
    tmp := tmp0;
    if base != -1 && base <= i < base + len {
      FormatGap(words, quad, base, len, i, tmp);
      if i == base {
        tmp := tmp + ":";
      }
      return;
    }
    FormatItem(words, quad, base, len, i, tmp);
    if i != 0 {
      tmp := tmp + ":";
    }
    if i == 6 && base == 0 && (len == 6 || (len == 5 && words[5] == 0xffff)) {
      DottedLength(quad);
      var r := Ntop4(quad, 16);
      tmp := tmp + r.text;
      return;
    }
    tmp := tmp + Hex(words[i]);
  }

  /** The formatting loop, left early when the last words are written as a quad: the items with
      the gap, as text.  (A gap of seven words reaches word six, so the test for one never decides.) */
  method Format(words: seq<U16>, quad: seq<Byte>, base: int, len: int) returns (tmp: string)
    requires |words| == 8 && |quad| == 4 && ValidGap(base, len) && ValidForm(Items(words, quad, base, len), base)
    ensures tmp == Text(Items(words, quad, base, len), base)
  {
    FormatStart(words, quad, base, len);
    tmp := "";
    var i := 0;
    while i < 8 && !(i == 7 && Encapsulated(words, base, len))
      invariant 0 <= i <= 8 && Formatted(words, quad, base, len, i, tmp) && (Encapsulated(words, base, len) ==> i <= 7)
    {
      tmp := FormatWord(words, quad, base, len, i, tmp);
      i := i + 1;
    }
    FormatDone(words, quad, base, len, tmp);
    if base != -1 && base + len == 8 {
      tmp := tmp + ":";
    }
  }

  // ---------- The whole printer, and the round trip ----------

  lemma GapIsValid(words: seq<U16>, base: int, len: int)
    requires |words| == 8 && IsGap(words, base, len)
    ensures base == -1 || (ValidGap(base, len) && 2 <= len && ZeroRun(words, base, len))
  {
  }

  /** The gap, of which there is one: the leftmost longest run of at least two zero words, or none. */
  lemma GapIsUnique(words: seq<U16>, base: int, len: int, b: int, l: int)
    requires IsGap(words, base, len) && IsGap(words, b, l)
    ensures base == b && (base != -1 ==> len == l)
  {
    if base != -1 { assert ZeroRun(words, base, len); }
    if b != -1 { assert ZeroRun(words, b, l); }
  }

  /** The result, where the gap of the address is this one. */
  ghost predicate IsResult(src: seq<Byte>, size: nat, r: Result, base: int, len: int)
    requires |src| == 16
  {
    && IsGap(Words(src), base, len) && ValidGap(base, len) && ValidForm(ItemsOf(src, base, len), base)
    && var text := Text(ItemsOf(src, base, len), base);
    r == if size == 0 then Ok("") else if |text| < size then Ok(text) else ENOSPC
  }

  /** inet_ntop6: the forms of RFC 4291, with "::" for the leftmost longest run of at least two zero words.
      (With a size of zero, nothing is written and nothing reported.) */
  method Ntop6(src: seq<Byte>, size: nat) returns (r: Result)
    requires |src| == 16
    ensures exists base, len :: IsResult(src, size, r, base, len)
  {
    var words := CopyWords(src);
    var base, len := FindGap(words);
    GapIsValid(words, base, len);
    AddressOf(src, base, len);
    var tmp := Format(words, src[12..16], base, len);
    if size == 0 {
      r := Ok("");
    } else if |tmp| < size {
      r := Ok(tmp);
    } else {
      r := ENOSPC;
    }
    ResultExists(src, size, r, base, len);
  }

  /** The gap in numbers: two or more zero words ... */
  lemma GapIsZero(words: seq<U16>, base: int, len: int)
    requires |words| == 8 && IsGap(words, base, len) && base != -1
    ensures 0 <= base && 2 <= len <= 8 - base && forall k :: base <= k < base + len ==> words[k] == 0
  {
  }

  /** ... where there are any, no fewer than in any other run of them, and the first of the longest. */
  lemma GapIsLongest(words: seq<U16>, base: int, len: int, b: nat, l: nat)
    requires |words| == 8 && IsGap(words, base, len)
    requires l >= 2 && b + l <= 8 && forall k :: b <= k < b + l ==> words[k] == 0
    ensures base != -1 && (l < len || (l == len && base <= b))
  {
    assert ZeroRun(words, b, l);
  }

  /** An address with five zero words and then FFFF, or with six, ends with its last four bytes as a quad. */
  lemma QuadAtEnd(words: seq<U16>, quad: seq<Byte>)
    requires |words| == 8 && |quad| == 4 && forall k :: 0 <= k < 5 ==> words[k] == 0
    ensures words[5] == 0xFFFF ==> Items(words, quad, 0, 5) == [G("ffff"), V4(quad)]
    ensures words[5] == 0 ==> Items(words, quad, 0, 6) == [V4(quad)]
  {
    if words[5] == 0xFFFF { FourDigits(words[5]); }
  }

  lemma FourDigits(w: U16)
    requires w == 0xFFFF
    ensures Hex(w) == "ffff"
  {
    assert Hex(0xF) == "f" && Hex(0xFF) == "ff" && Hex(0xFFF) == "fff";
  }

  lemma ResultExists(src: seq<Byte>, size: nat, r: Result, base: int, len: int)
    requires |src| == 16 && IsResult(src, size, r, base, len)
    ensures exists base, len :: IsResult(src, size, r, base, len)
  {
  }

  /** An item behind a group takes at most six characters, or five without a gap; a quad takes more. */
  /** One item more, with what separates it. */
  lemma TextStep(items: seq<Item>, gap: int, k: nat)
    requires k + 1 < |items| && (forall j :: 0 <= j < |items| ==> ValidItem(items[j])) && items[k].G?
    ensures |TextFrom(items, gap, k)| <= |TextFrom(items, gap, k + 1)| + (if gap < 0 then 5 else 6)
  {
    assert ValidItem(items[k]);
    Unroll(items, gap, k);
  }

  lemma TextLast(items: seq<Item>, gap: int)
    requires items != [] && forall j :: 0 <= j < |items| ==> ValidItem(items[j])
    ensures |TextFrom(items, gap, |items| - 1)| <= |ItemText(items[|items| - 1])| + (if gap < 0 then 0 else 2)
  {
    Unroll(items, gap, |items| - 1);
    assert TextFrom(items, gap, |items|) == "";
  }

  /** The text of the last `n` items and the one before them. */
  /** What grows by at most `c` with each step. */
  lemma {:induction false} LinearBound(f: nat -> nat, c: nat, n: nat, d: nat)
    requires f(n) <= d && forall k :: 0 <= k < n ==> f(k) <= f(k + 1) + c
    ensures f(0) <= n * c + d
  {
    if n > 0 {
      Distribute(n - 1, 1, c);
      LinearBound(f, c, n - 1, d + c);
    }
  }

  function TextLength(items: seq<Item>, gap: int): nat -> nat
    requires forall j :: 0 <= j < |items| ==> ValidItem(items[j])
  {
    (k: nat) => if k <= |items| then |TextFrom(items, gap, k)| else 0
  }

  lemma TextSteps(items: seq<Item>, gap: int, c: nat)
    requires items != [] && forall j :: 0 <= j < |items| ==> ValidItem(items[j])
    requires forall j :: 0 <= j < |items| - 1 ==> items[j].G?
    requires c == if gap < 0 then 5 else 6
    ensures var f := TextLength(items, gap); forall k :: 0 <= k < |items| - 1 ==> f(k) <= f(k + 1) + c
  {
    forall k | 0 <= k < |items| - 1
      ensures TextLength(items, gap)(k) <= TextLength(items, gap)(k + 1) + c
    {
      TextStep(items, gap, k);
    }
  }

  lemma TextBound(items: seq<Item>, gap: int, last: nat, c: nat, d: nat)
    requires items != [] && forall j :: 0 <= j < |items| ==> ValidItem(items[j])
    requires forall j :: 0 <= j < |items| - 1 ==> items[j].G?
    requires |ItemText(items[|items| - 1])| <= last && c == (if gap < 0 then 5 else 6)
    requires d == last + if gap < 0 then 0 else 2
    ensures |TextFrom(items, gap, 0)| <= (|items| - 1) * c + d
  {
    TextSteps(items, gap, c);
    TextLast(items, gap);
    LinearBound(TextLength(items, gap), c, |items| - 1, d);
  }

  /** The text and its terminator fit into UV__INET6_ADDRSTRLEN characters. */
  lemma TextFits(src: seq<Byte>, base: int, len: int)
    requires |src| == 16 && ValidGap(base, len) && ValidForm(ItemsOf(src, base, len), base)
    ensures |Text(ItemsOf(src, base, len), base)| < 46
  {
    var items := ItemsOf(src, base, len);
    if items != [] {
      var quad := items[|items| - 1].V4?;
      if quad { DottedLength(items[|items| - 1].octets); }
      var last := if quad then 15 else 4;
      TextBound(items, base, last, if base < 0 then 5 else 6, last + if base < 0 then 0 else 2);
    }
  }

  /** Every address comes back from its text. */
  method RoundTrip6(src: seq<Byte>) returns (dst: seq<Byte>)
    requires |src| == 16
    ensures dst == src
  {
    var r := Ntop6(src, 46);
    ghost var base, len :| IsResult(src, 46, r, base, len);
    TextFits(src, base, len);
    AddressOf(src, base, len);
    var ok;
    ghost var read;
    ok, dst, read := Pton6(r.text, ItemsOf(src, base, len), base);
  }
}
