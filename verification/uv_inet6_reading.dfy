/** What the IPv6 parser has read, at any point: the text of some items, with their separators. */
module Inet6Reading {
  import opened Bytes
  import opened Inet4
  import opened Inet6Forms
  import opened Inet6Vars

  predicate AllGroups(items: seq<Item>) {
    forall k :: 0 <= k < |items| ==> ValidItem(items[k]) && items[k].G?
  }

  /** The first `k` groups with what stands behind each of them. */
  function Prefix(items: seq<Item>, gap: int, k: nat): string
    requires k <= |items| && forall j :: 0 <= j < k ==> items[j].G?
  {
    if k == 0 then if gap == 0 then "::" else ""
    else Prefix(items, gap, k - 1) + items[k - 1].digits + (if gap == k then "::" else ":")
  }

  /** Later items and a gap behind do not show. */
  lemma {:induction false} PrefixSame(items: seq<Item>, gap: int, others: seq<Item>, gap': int, k: nat)
    requires k <= |items| && k <= |others| && (gap == gap' || (gap' == -1 && gap > k))
    requires forall j :: 0 <= j < k ==> items[j].G? && items[j] == others[j]
    ensures Prefix(items, gap, k) == Prefix(others, gap', k)
  {
    if k > 0 {
      PrefixSame(items, gap, others, gap', k - 1);
    }
  }

  /** One colon more makes a gap of the last separator. */
  lemma PrefixGap(items: seq<Item>)
    requires AllGroups(items) && items != []
    ensures Prefix(items, |items|, |items|) == Prefix(items, -1, |items|) + ":"
  {
    var n := |items| - 1;
    PrefixSame(items, |items|, items, -1, n);
    Colons(Prefix(items, -1, n), items[n].digits, Prefix(items, |items|, n + 1), Prefix(items, -1, n + 1));
  }

  lemma Colons(head: string, digits: string, a: string, b: string)
    requires a == head + digits + "::" && b == head + digits + ":"
    ensures a == b + ":"
  {
  }

  lemma PrefixNext(items: seq<Item>, gap: int, digits: string)
    requires AllGroups(items) && gap <= |items|
    ensures Prefix(items + [G(digits)], gap, |items| + 1) == Prefix(items, gap, |items|) + digits + ":"
  {
    PrefixSame(items + [G(digits)], gap, items, gap, |items|);
  }

  /** The text of an address, taken apart before item `k`. */
  lemma TextSplit(items: seq<Item>, gap: int, k: nat)
    requires (forall j :: 0 <= j < |items| ==> ValidItem(items[j])) && k < |items|
    requires forall j :: 0 <= j < k ==> items[j].G?
    ensures Text(items, gap) == Prefix(items, gap, k) + TextFrom(items, gap, k)
  {
    SplitAt(items, gap, k, Text(items, gap));
  }

  predicate SplitsAt(items: seq<Item>, gap: int, k: nat, text: string)
    requires forall j :: 0 <= j < |items| ==> ValidItem(items[j])
  {
    && k <= |items| && (forall j :: 0 <= j < k ==> items[j].G?)
    && text == Prefix(items, gap, k) + TextFrom(items, gap, k)
  }

  lemma {:induction false} SplitAt(items: seq<Item>, gap: int, k: nat, text: string)
    requires (forall j :: 0 <= j < |items| ==> ValidItem(items[j])) && k < |items|
    requires SplitsAt(items, gap, 0, text) && forall j :: 0 <= j < k ==> items[j].G?
    ensures SplitsAt(items, gap, k, text)
  {
    if k > 0 {
      SplitAt(items, gap, k - 1, text);
      SplitNext(items, gap, k, text);
    }
  }

  lemma SplitNext(items: seq<Item>, gap: int, k: nat, text: string)
    requires (forall j :: 0 <= j < |items| ==> ValidItem(items[j])) && 0 < k < |items|
    requires SplitsAt(items, gap, k - 1, text) && items[k - 1].G?
    ensures SplitsAt(items, gap, k, text)
  {
    NextFrom(items, gap, k);
    Join(text, Prefix(items, gap, k - 1), TextFrom(items, gap, k - 1),
         items[k - 1].digits, Sep(items, gap, k - 1), TextFrom(items, gap, k), Prefix(items, gap, k));
  }

  lemma NextFrom(items: seq<Item>, gap: int, k: nat)
    requires (forall j :: 0 <= j < |items| ==> ValidItem(items[j])) && 0 < k < |items| && items[k - 1].G?
    ensures TextFrom(items, gap, k - 1) == items[k - 1].digits + (Sep(items, gap, k - 1) + TextFrom(items, gap, k))
  {
  }

  lemma Join(text: string, head: string, tail: string, item: string, sep: string, rest: string, next: string)
    requires text == head + tail && tail == item + (sep + rest) && next == head + item + sep
    ensures text == next + rest
  {
  }

  /** The text that ends with an item. */
  lemma TextEnd(items: seq<Item>, gap: int, it: Item)
    requires AllGroups(items) && ValidItem(it) && gap <= |items|
    ensures forall k :: 0 <= k < |items + [it]| ==> ValidItem((items + [it])[k])
    ensures Text(items + [it], gap) == Prefix(items, gap, |items|) + ItemText(it)
  {
    var all := items + [it];
    PrefixSame(all, gap, items, gap, |items|);
    TextSplit(all, gap, |items|);
    assert TextFrom(all, gap, |items|) == ItemText(it) + ("" + "");
    assert ItemText(it) + ("" + "") == ItemText(it);
  }

  /** The text that ends with the gap. */
  lemma TextEndGap(items: seq<Item>)
    requires AllGroups(items)
    ensures Text(items, |items|) == Prefix(items, |items|, |items|)
  {
    if items != [] {
      var n := |items| - 1;
      TextSplit(items, |items|, n);
      LastFrom(items, n);
      Join(Text(items, |items|), Prefix(items, |items|, n), TextFrom(items, |items|, n),
           items[n].digits, "::", "", Prefix(items, |items|, n + 1));
    }
  }

  lemma LastFrom(items: seq<Item>, n: nat)
    requires AllGroups(items) && n + 1 == |items|
    ensures TextFrom(items, |items|, n) == items[n].digits + ("::" + "")
  {
    assert TextFrom(items, |items|, n + 1) == "";
  }

  /** In front of position `p`: whole items, then the digits of the next one. */
  ghost predicate Reading(src: string, p: nat, v: Vars, items: seq<Item>, gap: int) {
    && AllGroups(items) && -1 <= gap <= |items|
    && v.curtok + v.seen == p <= |src| && v.seen <= 4
    && IsHex(src[v.curtok..p]) && v.val == HexValue(src[v.curtok..p])
    && Stored(v.tmp, v.tp, items, |items|) && v.colonp == ColonAt(items, gap, |items|)
    && ReadText(src, p, v.curtok, items, gap)
  }

  predicate IsHex(s: string) {
    forall k :: 0 <= k < |s| ==> HexDigit(s[k]) >= 0
  }

  /** The text of the whole items; or only the first colon of a leading gap. */
  ghost predicate ReadText(src: string, p: nat, curtok: nat, items: seq<Item>, gap: int)
    requires AllGroups(items)
  {
    && curtok <= p <= |src|
    && if p == curtok == 1 && items == [] && gap < 0 then |src| > 1 && src[0] == ':' && src[1] == ':'
       else
         && src[..curtok] == Prefix(items, gap, |items|)
         && (p == 0 && |src| > 0 ==> src[0] != ':')
         && (p == curtok && gap != |items| && items != [] ==> p < |src|)
  }

  /** The whole text has been read. */
  ghost predicate Complete(src: string, v: Vars, items: seq<Item>, gap: int) {
    && (forall k :: 0 <= k < |items| ==> ValidItem(items[k]))
    && (forall k :: 0 <= k < |items| - 1 ==> items[k].G?)
    && -1 <= gap <= |items| && (items != [] && items[|items| - 1].V4? ==> gap < |items|)
    && src == Text(items, gap)
    && Stored(v.tmp, v.tp, items, |items|) && v.colonp == ColonAt(items, gap, |items|)
  }

  lemma ReadDigit(src: string, p: nat, v: Vars, items: seq<Item>, gap: int)
    requires Reading(src, p, v, items, gap) && p < |src| && HexDigit(src[p]) >= 0 && v.seen < 4
    ensures Reading(src, p + 1, v.(seen := v.seen + 1, val := v.val * 16 + HexDigit(src[p])), items, gap)
  {
    var digits := src[v.curtok..p + 1];
    assert digits == src[v.curtok..p] + [src[p]];
    assert digits[..|digits| - 1] == src[v.curtok..p];
    assert HexDigit(':') < 0;
  }

  /** The bytes of one more item. */
  lemma StoreNext(v: Vars, items: seq<Item>, gap: int, it: Item)
    requires (forall k :: 0 <= k < |items| ==> ValidItem(items[k])) && ValidItem(it) && -1 <= gap <= |items|
    requires Stored(v.tmp, v.tp, items, |items|) && v.tp + |ItemBytes(it)| <= 16
    ensures var next, b := items + [it], ItemBytes(it);
      && (forall k :: 0 <= k < |next| ==> ValidItem(next[k]))
      && |v.tmp| == 16 && Stored(v.tmp[..v.tp] + b + v.tmp[v.tp + |b|..], v.tp + |b|, next, |next|)
      && ColonAt(next, gap, |next|) == ColonAt(items, gap, |items|)
  {
    var next := items + [it];
    assert next[..|items|] == items && items[..|items|] == items;
    assert gap >= 0 ==> next[..gap] == items[..gap];
    BytesAppend(items, [it]);
    assert [it][..0] == [];
    PushStored(next, |items|, v, ItemBytes(it));
  }

  lemma StoreGroup(v: Vars, items: seq<Item>, gap: int, digits: string)
    requires AllGroups(items) && -1 <= gap <= |items| && 1 <= |digits| <= 4 && IsHex(digits)
    requires Stored(v.tmp, v.tp, items, |items|) && v.tp + 2 <= 16 && v.val == HexValue(digits)
    ensures var next := items + [G(digits)];
      && AllGroups(next) && |v.tmp| == 16 && v.val < 0x1_0000
      && Stored(PushWord(v).tmp, PushWord(v).tp, next, |next|)
      && ColonAt(next, gap, |next|) == ColonAt(items, gap, |items|)
  {
    HexBound(digits);
    StoreNext(v, items, gap, G(digits));
    assert PushWord(v).tmp == v.tmp[..v.tp] + ItemBytes(G(digits)) + v.tmp[v.tp + 2..];
  }

  /** A colon behind digits. */
  lemma ReadGroup(src: string, p: nat, v: Vars, items: seq<Item>, gap: int)
    requires Reading(src, p, v, items, gap) && p + 1 < |src| && src[p] == ':' && v.seen > 0 && v.tp + 2 <= 16
    ensures |v.tmp| == 16 && v.val < 0x1_0000
    ensures Reading(src, p + 1, PushWord(v).(curtok := p + 1), items + [G(src[v.curtok..p])], gap)
  {
    var digits := src[v.curtok..p];
    StoreGroup(v, items, gap, digits);
    PrefixNext(items, gap, digits);
    assert src[..p + 1] == src[..v.curtok] + digits + ":";
  }

  /** The second colon of the gap. */
  lemma ReadGap(src: string, p: nat, v: Vars, items: seq<Item>, gap: int)
    requires Reading(src, p, v, items, gap) && p < |src| && src[p] == ':' && v.seen == 0 && v.colonp == -1
    ensures Reading(src, p + 1, v.(curtok := p + 1, colonp := v.tp), items, |items|)
  {
    assert src[..p + 1] == src[..p] + ":";
    if items == [] {
      assert src[..p + 1] == "::";
    } else {
      PrefixGap(items);
    }
  }

  lemma WholeText(src: string, n: nat, items: seq<Item>, gap: int, it: Item)
    requires AllGroups(items) && ValidItem(it) && gap <= |items|
    requires n <= |src| && src[..n] == Prefix(items, gap, |items|) && src[n..] == ItemText(it)
    ensures (forall k :: 0 <= k < |items + [it]| ==> ValidItem((items + [it])[k])) && src == Text(items + [it], gap)
  {
    TextEnd(items, gap, it);
    assert src == src[..n] + src[n..];
  }

  /** A dotted quad at the end. */
  lemma ReadQuad(src: string, p: nat, v: Vars, items: seq<Item>, gap: int, octets: seq<Byte>)
    requires Reading(src, p, v, items, gap) && p < |src| && src[p] != ':' && v.tp + 4 <= 16
    requires |octets| == 4 && src[v.curtok..] == Dotted(octets)
    ensures |v.tmp| == 16
    ensures Complete(src, v.(tmp := v.tmp[..v.tp] + octets + v.tmp[v.tp + 4..], tp := v.tp + 4, seen := 0),
      items + [V4(octets)], gap)
  {
    StoreNext(v, items, gap, V4(octets));
    WholeText(src, v.curtok, items, gap, V4(octets));
  }

  /** The end of the text behind digits. */
  lemma ReadLast(src: string, v: Vars, items: seq<Item>, gap: int)
    requires Reading(src, |src|, v, items, gap) && v.seen > 0 && v.tp + 2 <= 16
    ensures |v.tmp| == 16 && v.val < 0x1_0000
    ensures Complete(src, PushWord(v), items + [G(src[v.curtok..])], gap)
  {
    var digits := src[v.curtok..];
    assert digits == src[v.curtok..|src|];
    StoreGroup(v, items, gap, digits);
    WholeText(src, v.curtok, items, gap, G(digits));
  }

  /** The end of the text behind the gap, or of none at all. */
  lemma ReadNothing(src: string, v: Vars, items: seq<Item>, gap: int)
    requires Reading(src, |src|, v, items, gap) && v.seen == 0
    ensures Complete(src, v, items, gap)
  {
    assert src == src[..|src|];
    if gap == |items| {
      TextEndGap(items);
    }
  }

  lemma {:induction false} EvenBytes(items: seq<Item>)
    requires forall k :: 0 <= k < |items| ==> ValidItem(items[k])
    ensures |AllBytes(items)| % 2 == 0
  {
    if items != [] {
      EvenBytes(items[..|items| - 1]);
    }
  }

  /** A text read completely is a form if its bytes fill the address, or leave room for the gap. */
  lemma CompleteIsForm(src: string, v: Vars, items: seq<Item>, gap: int)
    requires Complete(src, v, items, gap) && (if v.colonp == -1 then v.tp == 16 else v.tp < 16)
    ensures ValidForm(items, gap) && src == Text(items, gap)
  {
    EvenBytes(items);
    assert items[..|items|] == items;
  }

  /** What has been read: whole items, or with `done` everything. */
  datatype Read = Read(items: seq<Item>, gap: int, done: bool)

  ghost predicate SoFar(src: string, p: nat, v: Vars, r: Read) {
    if r.done then p == |src| && v.seen == 0 && Complete(src, v, r.items, r.gap) else Reading(src, p, v, r.items, r.gap)
  }
}
