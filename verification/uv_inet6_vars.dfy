/** The variables of the IPv6 parser, and the bytes it has stored. */
module Inet6Vars {
  import opened Bytes
  import opened Inet4
  import opened Inet6Forms

  /** The parser's variables: `colonp` is -1 for NULL. */
  datatype Vars = Vars(tmp: seq<Byte>, tp: nat, colonp: int, curtok: nat, seen: nat, val: nat)

  /** The bytes of the first `k` items are stored, and zeros behind them. */
  ghost predicate Stored(tmp: seq<Byte>, tp: nat, items: seq<Item>, k: nat)
    requires forall j :: 0 <= j < |items| ==> ValidItem(items[j])
  {
    && k <= |items| && tp == |AllBytes(items[..k])| <= 16
    && tmp == AllBytes(items[..k]) + Zeros(16 - tp)
  }

  function ColonAt(items: seq<Item>, gap: int, k: nat): int
    requires k <= |items| && gap <= |items| && forall j :: 0 <= j < |items| ==> ValidItem(items[j])
  {
    if 0 <= gap <= k then |AllBytes(items[..gap])| else -1
  }

  /** The group's value is stored. */
  function PushWord(v: Vars): Vars
    requires v.tp + 2 <= |v.tmp| && v.val < 0x1_0000
  {
    v.(tmp := v.tmp[v.tp := v.val / 256][v.tp + 1 := v.val % 256], tp := v.tp + 2, seen := 0, val := 0)
  }

  lemma PushStored(items: seq<Item>, k: nat, v: Vars, b: seq<Byte>)
    requires (forall j :: 0 <= j < |items| ==> ValidItem(items[j])) && k < |items| && |AllBytes(items)| <= 16
    requires Stored(v.tmp, v.tp, items, k) && b == ItemBytes(items[k])
    ensures |v.tmp| == 16 && v.tp + |b| <= 16
    ensures Stored(v.tmp[..v.tp] + b + v.tmp[v.tp + |b|..], v.tp + |b|, items, k + 1)
  {
    BytesNext(items, k);
    assert v.tmp[..v.tp] == AllBytes(items[..k]);
    assert v.tmp[v.tp + |b|..] == Zeros(16 - v.tp - |b|);
  }

  lemma PushWordStored(items: seq<Item>, k: nat, v: Vars)
    requires (forall j :: 0 <= j < |items| ==> ValidItem(items[j])) && k < |items| && |AllBytes(items)| <= 16
    requires Stored(v.tmp, v.tp, items, k) && items[k].G? && v.val == HexValue(items[k].digits)
    ensures |v.tmp| == 16 && v.tp + 2 <= 16 && v.val < 0x1_0000 && Stored(PushWord(v).tmp, PushWord(v).tp, items, k + 1)
  {
    HexBound(items[k].digits);
    PushStored(items, k, v, ItemBytes(items[k]));
    assert PushWord(v).tmp == v.tmp[..v.tp] + ItemBytes(items[k]) + v.tmp[v.tp + 2..];
  }
}
