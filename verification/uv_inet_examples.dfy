/** An address of each family in full. */
module InetExamples {
  import opened Bytes
  import opened Inet4
  import opened Inet6Forms

  predicate AreHex(s: string) {
    forall k :: 0 <= k < |s| ==> HexDigit(s[k]) >= 0
  }

  lemma OneMore(s: string)
    requires AreHex(s) && s != ""
    ensures AreHex(s[..|s| - 1]) && HexValue(s) == HexValue(s[..|s| - 1]) * 16 + HexDigit(s[|s| - 1])
  {
  }

  lemma UpToFour(s: string)
    requires AreHex(s) && |s| == 4
    ensures HexValue(s) ==
      HexDigit(s[0]) * 0x1000 + HexDigit(s[1]) * 0x100 + HexDigit(s[2]) * 0x10 + HexDigit(s[3])
  {
    OneMore(s);
    UpToThree(s[..3]);
  }

  lemma UpToThree(s: string)
    requires AreHex(s) && |s| == 3
    ensures HexValue(s) == HexDigit(s[0]) * 0x100 + HexDigit(s[1]) * 0x10 + HexDigit(s[2])
  {
    OneMore(s);
    OneMore(s[..2]);
    OneMore(s[..2][..1]);
    assert s[..2][..1][..0] == "";
  }

  lemma OnlyOne(s: string)
    requires AreHex(s) && |s| == 1
    ensures HexValue(s) == HexDigit(s[0])
  {
    OneMore(s);
    assert s[..0] == "";
  }

  lemma OneItem(items: seq<Item>, it: Item)
    requires ValidItem(it) && forall k :: 0 <= k < |items| ==> ValidItem(items[k])
    ensures forall k :: 0 <= k < |items + [it]| ==> ValidItem((items + [it])[k])
    ensures AllBytes(items + [it]) == AllBytes(items) + ItemBytes(it)
  {
    assert (items + [it])[..|items|] == items;
  }

  lemma TwoItems(a: Item, b: Item)
    requires ValidItem(a) && ValidItem(b)
    ensures AllBytes([a]) == ItemBytes(a) && AllBytes([a, b]) == ItemBytes(a) + ItemBytes(b)
  {
    OneItem([], a);
    OneItem([a], b);
    assert [] + [a] == [a] && [a] + [b] == [a, b];
  }

  /** 192.168.0.10 */
  lemma Quad(b: seq<Byte>)
    requires |b| == 4 && b[0] == 192 && b[1] == 168 && b[2] == 0 && b[3] == 10
    ensures Dotted(b) == "192.168.0.10"
  {
    Octets(b);
    TwoNumerals(b[0], b[1]);
    SmallNumerals(b[2], b[3]);
    Joined(Dec(b[0]), Dec(b[1]), Dec(b[2]), Dec(b[3]));
  }

  lemma Joined(a: string, b: string, c: string, d: string)
    requires a == "192" && b == "168" && c == "0" && d == "10"
    ensures a + ("." + (b + ("." + (c + ("." + (d + "")))))) == "192.168.0.10"
  {
  }

  lemma TwoNumerals(a: nat, b: nat)
    requires a == 192 && b == 168
    ensures Dec(a) == "192" && Dec(b) == "168"
  {
  }

  lemma SmallNumerals(a: nat, b: nat)
    requires a == 0 && b == 10
    ensures Dec(a) == "0" && Dec(b) == "10"
  {
  }

  lemma Octets(b: seq<Byte>)
    requires |b| == 4
    ensures Dotted(b) == Dec(b[0]) + ("." + (Dec(b[1]) + ("." + (Dec(b[2]) + ("." + (Dec(b[3]) + ""))))))
  {
    assert DotTail(b, 3) == "." + (Dec(b[3]) + DotTail(b, 4));
    assert DotTail(b, 2) == "." + (Dec(b[2]) + DotTail(b, 3));
  }

  /** 2001:db8::1 */
  lemma WithGap(a: string, b: string, c: string, items: seq<Item>)
    requires a == "2001" && b == "db8" && c == "1" && items == [G(a), G(b), G(c)]
    ensures ValidForm(items, 2) && Text(items, 2) == "2001:db8::1"
    ensures Address(items, 2) == [0x20, 0x01, 0x0D, 0xB8, 0, 0, 0, 0, 0, 0, 0, 0, 0, 0, 0, 1]
  {
    GapBytes(a, b, c);
    WithGapForm(items);
    GapText(items, a, b, c);
    TenZeros();
  }

  lemma GapBytes(a: string, b: string, c: string)
    requires a == "2001" && b == "db8" && c == "1"
    ensures ValidItem(G(a)) && ValidItem(G(b)) && ValidItem(G(c))
    ensures ItemBytes(G(a)) == [0x20, 0x01] && ItemBytes(G(b)) == [0x0D, 0xB8] && ItemBytes(G(c)) == [0, 1]
  {
    assert AreHex(a) && AreHex(b) && AreHex(c);
    UpToFour(a);
    UpToThree(b);
    OnlyOne(c);
  }

  lemma WithGapForm(items: seq<Item>)
    requires |items| == 3 && forall k :: 0 <= k < 3 ==> ValidItem(items[k]) && items[k].G?
    ensures ValidForm(items, 2)
    ensures AllBytes(items[..2]) == ItemBytes(items[0]) + ItemBytes(items[1])
    ensures AllBytes(items[2..]) == ItemBytes(items[2])
  {
    TwoItems(items[0], items[1]);
    TwoItems(items[2], items[2]);
    OneItem([items[0], items[1]], items[2]);
    assert items[..2] == [items[0], items[1]] && items[2..] == [items[2]];
    assert items == [items[0], items[1]] + [items[2]];
  }

  lemma GapText(items: seq<Item>, a: string, b: string, c: string)
    requires items == [G(a), G(b), G(c)] && forall k :: 0 <= k < 3 ==> ValidItem(items[k])
    ensures Text(items, 2) == "" + (a + (":" + (b + ("::" + (c + ("" + ""))))))
  {
    assert TextFrom(items, 2, 3) == "";
    assert TextFrom(items, 2, 2) == c + ("" + TextFrom(items, 2, 3));
    assert TextFrom(items, 2, 1) == b + ("::" + TextFrom(items, 2, 2));
    assert TextFrom(items, 2, 0) == a + (":" + TextFrom(items, 2, 1));
  }

  lemma TenZeros()
    ensures Zeros(10) == [0, 0, 0, 0, 0, 0, 0, 0, 0, 0]
  {
  }
}
