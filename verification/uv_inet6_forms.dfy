/** The text forms of IPv6 addresses: section 2.2 of RFC 4291. */
module Inet6Forms {
  import opened Bytes
  import opened Inet4

  /** A group of hexadecimal digits, or a dotted quad. */
  datatype Item = G(digits: string) | V4(octets: seq<Byte>)

  predicate ValidItem(it: Item) {
    match it
    case G(digits) => 1 <= |digits| <= 4 && forall k :: 0 <= k < |digits| ==> HexDigit(digits[k]) >= 0
    case V4(octets) => |octets| == 4
  }

  function ItemText(it: Item): (s: string)
    requires ValidItem(it)
  {
    if it.G? then it.digits else Dotted(it.octets)
  }

  function ItemBytes(it: Item): (b: seq<Byte>)
    requires ValidItem(it)
    ensures |b| == if it.G? then 2 else 4
  {
    if it.G? then
      HexBound(it.digits);
      [HexValue(it.digits) / 256, HexValue(it.digits) % 256]
    else it.octets
  }

  lemma {:induction false} HexBoundAt(s: string, n: nat, p: nat)
    requires |s| <= n <= 4 && forall k :: 0 <= k < |s| ==> HexDigit(s[k]) >= 0
    requires p == (if n == 0 then 1 else if n == 1 then 0x10 else if n == 2 then 0x100 else if n == 3 then 0x1000
      else 0x1_0000)
    ensures HexValue(s) < p
  {
    if s != [] {
      HexBoundAt(s[..|s| - 1], n - 1, p / 16);
    }
  }

  lemma HexBound(s: string)
    requires |s| <= 4 && forall k :: 0 <= k < |s| ==> HexDigit(s[k]) >= 0
    ensures HexValue(s) < 0x1_0000
  {
    HexBoundAt(s, 4, 0x1_0000);
  }

  function AllBytes(items: seq<Item>): seq<Byte>
    requires forall k :: 0 <= k < |items| ==> ValidItem(items[k])
  {
    if items == [] then [] else AllBytes(items[..|items| - 1]) + ItemBytes(items[|items| - 1])
  }

  /** What stands behind item `k`: "::" where the gap is. */
  function Sep(items: seq<Item>, gap: int, k: nat): string {
    if k + 1 == gap then "::" else if k + 1 < |items| then ":" else ""
  }

  /** The text from item `k` on. */
  function TextFrom(items: seq<Item>, gap: int, k: nat): string
    requires k <= |items| && forall j :: 0 <= j < |items| ==> ValidItem(items[j])
    decreases |items| - k
  {
    if k == |items| then "" else ItemText(items[k]) + (Sep(items, gap, k) + TextFrom(items, gap, k + 1))
  }

  /** An address as items, with a gap before item `gap` unless it is negative. */
  function Text(items: seq<Item>, gap: int): string
    requires forall j :: 0 <= j < |items| ==> ValidItem(items[j])
  {
    (if gap == 0 then "::" else "") + TextFrom(items, gap, 0)
  }

  /** Eight groups' worth of bytes, or less with a gap; a dotted quad only at the end. */
  predicate ValidForm(items: seq<Item>, gap: int) {
    && (forall k :: 0 <= k < |items| ==> ValidItem(items[k]))
    && (forall k :: 0 <= k < |items| - 1 ==> items[k].G?)
    && gap <= |items|
    && (items != [] && items[|items| - 1].V4? ==> gap < |items|)
    && (if gap < 0 then |AllBytes(items)| == 16 else |AllBytes(items)| <= 14)
  }

  function Zeros(n: nat): (z: seq<Byte>)
    ensures |z| == n && forall k :: 0 <= k < n ==> z[k] == 0
  {
    if n == 0 then [] else Zeros(n - 1) + [0]
  }

  lemma {:induction false} BytesGrow(items: seq<Item>, k: nat)
    requires k <= |items| && forall j :: 0 <= j < |items| ==> ValidItem(items[j])
    ensures AllBytes(items[..k]) <= AllBytes(items)
  {
    if k < |items| {
      BytesGrow(items[..|items| - 1], k);
      assert items[..|items| - 1][..k] == items[..k];
    } else {
      assert items[..k] == items;
    }
  }

  lemma ValidAppend(a: seq<Item>, b: seq<Item>)
    requires forall k :: 0 <= k < |a| ==> ValidItem(a[k])
    requires forall k :: 0 <= k < |b| ==> ValidItem(b[k])
    ensures forall k :: 0 <= k < |a + b| ==> ValidItem((a + b)[k])
  {
  }

  lemma {:induction false} BytesAppend(a: seq<Item>, b: seq<Item>)
    requires forall k :: 0 <= k < |a| ==> ValidItem(a[k])
    requires forall k :: 0 <= k < |b| ==> ValidItem(b[k])
    ensures forall k :: 0 <= k < |a + b| ==> ValidItem((a + b)[k])
    ensures AllBytes(a + b) == AllBytes(a) + AllBytes(b)
  {
    ValidAppend(a, b);
    if b == [] {
      assert a + b == a;
    } else {
      var n := |b| - 1;
      BytesAppend(a, b[..n]);
      assert (a + b)[..|a + b| - 1] == a + b[..n] && (a + b)[|a + b| - 1] == b[n];
      Regroup(AllBytes(a), AllBytes(b[..n]), ItemBytes(b[n]));
    }
  }

  /** Sixteen bytes, with zeros in the middle. */
  function Fill(head: seq<Byte>, tail: seq<Byte>): seq<Byte>
    requires |head| + |tail| <= 16
  {
    head + Zeros(16 - |head| - |tail|) + tail
  }

  /** The address: zeros fill the gap. */
  function Address(items: seq<Item>, gap: int): seq<Byte>
    requires ValidForm(items, gap)
  {
    if gap < 0 then AllBytes(items)
    else
      SplitBytes(items, gap);
      Fill(AllBytes(items[..gap]), AllBytes(items[gap..]))
  }

  lemma SplitBytes(items: seq<Item>, gap: nat)
    requires gap <= |items| && forall j :: 0 <= j < |items| ==> ValidItem(items[j])
    ensures AllBytes(items) == AllBytes(items[..gap]) + AllBytes(items[gap..])
  {
    assert items == items[..gap] + items[gap..];
    BytesAppend(items[..gap], items[gap..]);
  }

  lemma BytesNext(items: seq<Item>, k: nat)
    requires k < |items| && forall j :: 0 <= j < |items| ==> ValidItem(items[j])
    ensures AllBytes(items[..k + 1]) == AllBytes(items[..k]) + ItemBytes(items[k])
    ensures |AllBytes(items[..k + 1])| <= |AllBytes(items)|
  {
    assert items[..k + 1][..k] == items[..k];
    BytesGrow(items, k + 1);
  }
}
