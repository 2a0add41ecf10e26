/** libuv's parser of IPv6 addresses. */
module Inet6Parser {
  import opened Bytes
  import opened Inet4
  import opened Inet6Forms
  import opened Inet6Reading
  import opened Inet6Vars

  /** The characters of an item that look like one group of hexadecimal digits, and the others. */
  function Lead(it: Item): (s: string)
    requires ValidItem(it)
    ensures 1 <= |s| <= 4 && forall k :: 0 <= k < |s| ==> HexDigit(s[k]) >= 0
  {
    if it.G? then it.digits
    else
      DecLength(it.octets[0]);
      var s := Dec(it.octets[0]);
      assert forall k :: 0 <= k < |s| ==> DecDigit(s[k]) >= 0;
      s
  }

  function After(it: Item): string
    requires ValidItem(it)
  {
    if it.G? then "" else LaterOctets(it.octets)
  }

  /** What follows the leading digits of item `k`. */
  function Behind(items: seq<Item>, gap: int, k: nat): string
    requires k < |items| && forall j :: 0 <= j < |items| ==> ValidItem(items[j])
  {
    After(items[k]) + (Sep(items, gap, k) + TextFrom(items, gap, k + 1))
  }

  /** Where the parser is: `d` digits into item `k`, before the second colon of the gap, or at the end. */
  datatype Pos = InItem(k: nat, d: nat) | AtColon(k: nat) | AtEnd

  /** `d` digits into item `k`. */
  ghost predicate SyncItem(src: string, p: nat, items: seq<Item>, gap: int, k: nat, d: nat, v: Vars)
    requires ValidForm(items, gap)
  {
    && k < |items| && d <= |Lead(items[k])| && d <= p <= |src|
    && src[p..] == Lead(items[k])[d..] + Behind(items, gap, k)
    && Stored(v.tmp, v.tp, items, k) && v.colonp == ColonAt(items, gap, k)
    && v.curtok == p - d && src[v.curtok..] == TextFrom(items, gap, k)
    && v.seen == d && v.val == HexValue(Lead(items[k])[..d])
  }

  ghost predicate SyncColon(src: string, p: nat, items: seq<Item>, gap: int, k: nat, v: Vars)
    requires ValidForm(items, gap)
  {
    && gap == k && p <= |src| && src[p..] == ":" + TextFrom(items, gap, k)
    && Stored(v.tmp, v.tp, items, k) && v.colonp == -1 && v.seen == 0 && v.val == 0
  }

  ghost predicate SyncEnd(src: string, p: nat, items: seq<Item>, gap: int, v: Vars)
    requires ValidForm(items, gap)
  {
    p == |src| && Stored(v.tmp, v.tp, items, |items|) && v.colonp == ColonAt(items, gap, |items|) && v.seen == 0
  }

  /** The parser, on the way through the text of a form. */
  ghost predicate Sync(src: string, p: nat, items: seq<Item>, gap: int, pos: Pos, v: Vars) {
    ValidForm(items, gap)
    && match pos
       case InItem(k, d) => SyncItem(src, p, items, gap, k, d, v)
       case AtColon(k) => SyncColon(src, p, items, gap, k, v)
       case AtEnd => SyncEnd(src, p, items, gap, v)
  }

  lemma TextIsLead(items: seq<Item>, gap: int, k: nat)
    requires k < |items| && forall j :: 0 <= j < |items| ==> ValidItem(items[j])
    ensures TextFrom(items, gap, k) == Lead(items[k]) + Behind(items, gap, k)
  {
    assert ItemText(items[k]) == Lead(items[k]) + After(items[k]);
    Regroup(Lead(items[k]), After(items[k]), Sep(items, gap, k) + TextFrom(items, gap, k + 1));
  }

  /** The position at the start of item `k`, or at the end. */
  function StartOf(items: seq<Item>, k: nat): Pos {
    if k < |items| then InItem(k, 0) else AtEnd
  }

  /** At the start of an item or at the end. */
  lemma SyncStart(src: string, p: nat, items: seq<Item>, gap: int, k: nat, v: Vars)
    requires ValidForm(items, gap) && p <= |src| && k <= |items|
    requires src[p..] == TextFrom(items, gap, k)
    requires Stored(v.tmp, v.tp, items, k) && v.colonp == ColonAt(items, gap, k)
    requires v.curtok == p && v.seen == 0 && v.val == 0
    ensures Sync(src, p, items, gap, StartOf(items, k), v)
  {
    if k < |items| {
      TextIsLead(items, gap, k);
      assert Lead(items[k])[..0] == "" && Lead(items[k])[0..] == Lead(items[k]);
    }
  }

  /** What the next character says about the position. */
  lemma NextChar(src: string, p: nat, items: seq<Item>, gap: int, pos: Pos, v: Vars)
    requires Sync(src, p, items, gap, pos, v) && p < |src|
    ensures HexDigit(src[p]) >= 0 ==> pos.InItem? && pos.d < |Lead(items[pos.k])| && src[p] == Lead(items[pos.k])[pos.d]
    ensures HexDigit(src[p]) < 0 ==>
      || pos.AtColon?
      || (pos.InItem? && pos.d == |Lead(items[pos.k])| && src[p..] == Behind(items, gap, pos.k))
    ensures HexDigit(src[p]) >= 0 || src[p] == ':' || src[p] == '.'
    ensures pos.AtColon? ==> src[p] == ':' && src[p + 1..] == TextFrom(items, gap, pos.k)
  {
    assert src[p] == src[p..][0] && src[p + 1..] == src[p..][1..];
    if pos.InItem? { ItemChar(src, p, items, gap, pos.k, pos.d, v); }
  }

  /** `d` digits into item `k`: one more digit, or what stands behind them. */
  lemma ItemChar(src: string, p: nat, items: seq<Item>, gap: int, k: nat, d: nat, v: Vars)
    requires ValidForm(items, gap) && SyncItem(src, p, items, gap, k, d, v) && p < |src|
    ensures HexDigit(src[p]) >= 0 ==> d < |Lead(items[k])| && src[p] == Lead(items[k])[d]
    ensures HexDigit(src[p]) < 0 ==> d == |Lead(items[k])| && src[p..] == Behind(items, gap, k)
    ensures HexDigit(src[p]) >= 0 || src[p] == ':' || src[p] == '.'
  {
    assert src[p] == src[p..][0];
    DropFirst(Lead(items[k]), Behind(items, gap, k), d);
    BehindFirst(items, gap, k);
  }

  lemma StepDigit(src: string, p: nat, items: seq<Item>, gap: int, pos: Pos, v: Vars) returns (next: Pos)
    requires Sync(src, p, items, gap, pos, v) && p < |src| && HexDigit(src[p]) >= 0
    ensures v.seen < 4
    ensures Sync(src, p + 1, items, gap, next, v.(seen := v.seen + 1, val := v.val * 16 + HexDigit(src[p])))
  {
    NextChar(src, p, items, gap, pos, v);
    ItemDigit(src, p, items, gap, pos.k, pos.d, v);
    next := InItem(pos.k, pos.d + 1);
  }

  lemma ItemDigit(src: string, p: nat, items: seq<Item>, gap: int, k: nat, d: nat, v: Vars)
    requires ValidForm(items, gap) && SyncItem(src, p, items, gap, k, d, v) && p < |src|
    requires HexDigit(src[p]) >= 0 && d < |Lead(items[k])| && src[p] == Lead(items[k])[d]
    ensures SyncItem(src, p + 1, items, gap, k, d + 1, v.(seen := v.seen + 1, val := v.val * 16 + HexDigit(src[p])))
  {
    DigitOf(src, p, Lead(items[k]), Behind(items, gap, k), d);
  }

  lemma DigitOf(src: string, p: nat, lead: string, behind: string, d: nat)
    requires p < |src| && d < |lead| && src[p..] == lead[d..] + behind && src[p] == lead[d]
    requires forall i :: 0 <= i < |lead| ==> HexDigit(lead[i]) >= 0
    ensures src[p + 1..] == lead[d + 1..] + behind
    ensures HexValue(lead[..d + 1]) == HexValue(lead[..d]) * 16 + HexDigit(src[p])
  {
    DropFirst(lead, behind, d);
    assert src[p + 1..] == src[p..][1..];
    assert lead[..d + 1][..d] == lead[..d];
  }

  /** The group is stored, and the colon behind it read. */
  lemma PushGroup(src: string, p: nat, items: seq<Item>, gap: int, k: nat, v: Vars) returns (next: Pos)
    requires ValidForm(items, gap) && k < |items| && items[k].G? && p <= |src| && (k + 1 == gap || k + 1 < |items|)
    requires v.val == HexValue(items[k].digits) && Stored(v.tmp, v.tp, items, k) && v.colonp == ColonAt(items, gap, k)
    requires src[p..] == (if k + 1 == gap then ":" else "") + TextFrom(items, gap, k + 1)
    ensures |v.tmp| == 16 && v.tp + 2 <= 16 && v.val < 0x1_0000
    ensures Sync(src, p, items, gap, next, PushWord(v).(curtok := p))
  {
    PushWordStored(items, k, v);
    next := AfterColon(src, p, items, gap, k, PushWord(v).(curtok := p));
  }

  /** Behind the colon after item `k`: the gap, or the next item. */
  lemma AfterColon(src: string, p: nat, items: seq<Item>, gap: int, k: nat, v: Vars) returns (next: Pos)
    requires ValidForm(items, gap) && k < |items| && p <= |src| && (k + 1 == gap || k + 1 < |items|)
    requires src[p..] == (if k + 1 == gap then ":" else "") + TextFrom(items, gap, k + 1)
    requires Stored(v.tmp, v.tp, items, k + 1) && v.colonp == ColonAt(items, gap, k)
    requires v.curtok == p && v.seen == 0 && v.val == 0
    ensures Sync(src, p, items, gap, next, v)
  {
    if k + 1 == gap {
      next := AtColon(k + 1);
    } else {
      assert "" + TextFrom(items, gap, k + 1) == TextFrom(items, gap, k + 1);
      next := InItem(k + 1, 0);
      SyncStart(src, p, items, gap, k + 1, v);
    }
  }

  /** A colon behind a group: what follows it. */
  lemma BehindGroup(items: seq<Item>, gap: int, k: nat)
    requires ValidForm(items, gap) && k < |items| && Behind(items, gap, k) != "" && Behind(items, gap, k)[0] == ':'
    ensures items[k].G? && Behind(items, gap, k)[1..] != ""
    ensures Behind(items, gap, k)[1..] == (if k + 1 == gap then ":" else "") + TextFrom(items, gap, k + 1)
    ensures k + 1 == gap || k + 1 < |items|
  {
    BehindIs(items, gap, k);
    DropColon(TextFrom(items, gap, k + 1));
    if k + 1 < |items| { TextNonempty(items, gap, k + 1); }
  }

  lemma DropColon(t: string)
    ensures ("::" + t)[1..] == ":" + t && (":" + t)[1..] == t == "" + t
  {
  }

  /** The second colon of the gap. */
  lemma StepGap(src: string, p: nat, items: seq<Item>, gap: int, pos: Pos, v: Vars) returns (next: Pos)
    requires Sync(src, p, items, gap, pos, v) && p < |src| && src[p] == ':' && v.seen == 0
    ensures v.colonp == -1
    ensures Sync(src, p + 1, items, gap, next, v.(curtok := p + 1, colonp := v.tp))
  {
    NextChar(src, p, items, gap, pos, v);
    next := StartOf(items, pos.k);
    SyncStart(src, p + 1, items, gap, pos.k, v.(curtok := p + 1, colonp := v.tp));
  }

  /** Where a full stop stands: in the dotted quad at the end. */
  lemma AtDot(src: string, p: nat, items: seq<Item>, gap: int, pos: Pos, v: Vars)
    requires Sync(src, p, items, gap, pos, v) && p < |src| && src[p] == '.'
    ensures items != [] && items[|items| - 1].V4? && gap < |items|
    ensures Stored(v.tmp, v.tp, items, |items| - 1) && v.colonp == ColonAt(items, gap, |items| - 1)
    ensures v.curtok <= |src| && src[v.curtok..] == Dotted(items[|items| - 1].octets)
  {
    DotItem(src, p, items, gap, pos, v);
    QuadIs(items, gap, pos.k);
  }

  lemma DotItem(src: string, p: nat, items: seq<Item>, gap: int, pos: Pos, v: Vars)
    requires Sync(src, p, items, gap, pos, v) && p < |src| && src[p] == '.'
    ensures pos.InItem? && items[pos.k].V4? && pos.k + 1 == |items| && gap != pos.k + 1
  {
    NextChar(src, p, items, gap, pos, v);
    BehindFirst(items, gap, pos.k);
    assert src[p] == src[p..][0];
  }

  /** A dotted quad. */
  lemma StepDot(src: string, p: nat, items: seq<Item>, gap: int, pos: Pos, v: Vars) returns (octets: seq<Byte>)
    requires Sync(src, p, items, gap, pos, v) && p < |src| && src[p] == '.'
    ensures |v.tmp| == 16 && v.tp + 4 <= 16 && |octets| == 4 && v.curtok <= |src| && src[v.curtok..] == Dotted(octets)
    ensures Sync(src, |src|, items, gap, AtEnd,
      v.(tmp := v.tmp[..v.tp] + octets + v.tmp[v.tp + 4..], tp := v.tp + 4, seen := 0))
  {
    AtDot(src, p, items, gap, pos, v);
    octets := items[|items| - 1].octets;
    QuadStored(items, gap, v);
  }

  lemma QuadStored(items: seq<Item>, gap: int, v: Vars)
    requires ValidForm(items, gap) && items != [] && items[|items| - 1].V4?
    requires Stored(v.tmp, v.tp, items, |items| - 1) && v.colonp == ColonAt(items, gap, |items| - 1)
    ensures |v.tmp| == 16 && v.tp + 4 <= 16 && v.colonp == ColonAt(items, gap, |items|)
    ensures Stored(v.tmp[..v.tp] + items[|items| - 1].octets + v.tmp[v.tp + 4..], v.tp + 4, items, |items|)
  {
    PushStored(items, |items| - 1, v, items[|items| - 1].octets);
  }

  lemma AppendEmpty(t: string)
    ensures t + "" == t
  {
  }

  lemma QuadIs(items: seq<Item>, gap: int, k: nat)
    requires ValidForm(items, gap) && k == |items| - 1 && items[k].V4?
    ensures TextFrom(items, gap, k) == Dotted(items[k].octets)
  {
    assert Sep(items, gap, k) + TextFrom(items, gap, k + 1) == "";
    AppendEmpty(Dotted(items[k].octets));
  }

  /** The end of the text. */
  lemma StepEnd(src: string, items: seq<Item>, gap: int, pos: Pos, v: Vars)
    requires Sync(src, |src|, items, gap, pos, v)
    ensures if v.seen > 0 then
        && |v.tmp| == 16 && v.tp + 2 <= 16 && v.val < 0x1_0000
        && Stored(PushWord(v).tmp, PushWord(v).tp, items, |items|)
      else Stored(v.tmp, v.tp, items, |items|)
    ensures v.colonp == ColonAt(items, gap, |items|)
  {
    assert src[|src|..] == "";
    if pos.InItem? {
      var k := pos.k;
      DropFirst(Lead(items[k]), Behind(items, gap, k), pos.d);
      BehindFirst(items, gap, k);
      assert Lead(items[k])[..pos.d] == Lead(items[k]);
      PushWordStored(items, k, v);
    }
  }

  lemma DropFirst(lead: string, behind: string, d: nat)
    requires d <= |lead|
    ensures var left := lead[d..] + behind;
      if d < |lead| then left[0] == lead[d] && left[1..] == lead[d + 1..] + behind else left == behind
  {
  }

  /** What follows the leading digits, by the kind of item. */
  lemma BehindIs(items: seq<Item>, gap: int, k: nat)
    requires ValidForm(items, gap) && k < |items|
    ensures items[k].V4? ==>
      && k == |items| - 1 && gap != k + 1
      && Behind(items, gap, k) == LaterOctets(items[k].octets) && Behind(items, gap, k) != ""
        && Behind(items, gap, k)[0] == '.'
    ensures items[k].G? && k + 1 == gap ==> Behind(items, gap, k) == "::" + TextFrom(items, gap, k + 1)
    ensures items[k].G? && k + 1 != gap && k + 1 < |items| ==>
      Behind(items, gap, k) == ":" + TextFrom(items, gap, k + 1)
    ensures items[k].G? && k + 1 != gap && k + 1 == |items| ==> Behind(items, gap, k) == ""
  {
    var text := TextFrom(items, gap, k + 1);
    if items[k].V4? {
      assert Sep(items, gap, k) + text == "";
    } else {
      assert "" + (Sep(items, gap, k) + text) == Sep(items, gap, k) + text;
      assert "" + text == text;
    }
  }

  /** The first character that follows tells the kind of item. */
  lemma BehindFirst(items: seq<Item>, gap: int, k: nat)
    requires ValidForm(items, gap) && k < |items|
    ensures var b := Behind(items, gap, k);
      if b == "" then items[k].G? && k + 1 == |items| && gap != k + 1
      else if items[k].V4? then b[0] == '.' && k + 1 == |items| && gap != k + 1
      else b[0] == ':'
  {
    BehindIs(items, gap, k);
  }

  lemma TextNonempty(items: seq<Item>, gap: int, k: nat)
    requires ValidForm(items, gap) && k < |items|
    ensures TextFrom(items, gap, k) != ""
  {
    TextIsLead(items, gap, k);
  }

  /** What holds of the variables for any input. */
  predicate InRange(src: string, p: nat, v: Vars) {
    && |v.tmp| == 16 && v.tp <= 16 && -1 <= v.colonp <= v.tp && v.curtok <= p <= |src|
    && (forall j :: v.tp <= j < 16 ==> v.tmp[j] == 0)
    && v.seen <= 4
    && (v.seen == 0 ==> p == |src| || v.val == 0)
    && (v.seen > 0 ==> v.val < (if v.seen == 1 then 0x10 else if v.seen == 2 then 0x100
      else if v.seen == 3 then 0x1000 else 0x1_0000))
  }

  lemma SyncInitially(src: string, items: seq<Item>, gap: int) returns (pos: Pos)
    requires ValidForm(items, gap) && src == Text(items, gap)
    ensures var p := if |src| > 0 && src[0] == ':' then 1 else 0;
      && (p == 1 ==> |src| > 1 && src[1] == ':')
      && Sync(src, p, items, gap, pos, Vars(Zeros(16), 0, -1, p, 0, 0))
  {
    assert items[..0] == [];
    assert [] + Zeros(16) == Zeros(16);
    if gap == 0 {
      DropColon(TextFrom(items, gap, 0));
      pos := AtColon(0);
    } else {
      assert items != [];
      assert "" + TextFrom(items, gap, 0) == TextFrom(items, gap, 0) == src[0..];
      TextIsLead(items, gap, 0);
      assert src[0] == Lead(items[0])[0];
      pos := InItem(0, 0);
      SyncStart(src, 0, items, gap, 0, Vars(Zeros(16), 0, -1, 0, 0, 0));
    }
  }

  /** The shift by hand that puts what follows the gap at the end. */
  method ShiftTail(tmp0: seq<Byte>, colonp: nat, tp: nat) returns (tmp: seq<Byte>)
    requires |tmp0| == 16 && colonp <= tp < 16
    requires forall j :: tp <= j < 16 ==> tmp0[j] == 0
    ensures tmp == tmp0[..colonp] + Zeros(16 - tp) + tmp0[colonp..tp]
  {
    tmp := tmp0;
    var n := tp - colonp;
    var i := 1;
    while i <= n
      invariant 1 <= i <= n + 1 && |tmp| == 16
      invariant forall j :: 0 <= j <= tp - i ==> tmp[j] == tmp0[j]
      invariant forall j :: tp - i < j <= 16 - i ==> tmp[j] == 0
      invariant forall j :: 16 - i < j < 16 ==> tmp[j] == tmp0[j - (16 - tp)]
    {
      tmp := tmp[16 - i := tmp[colonp + n - i]];
      tmp := tmp[colonp + n - i := 0];
      i := i + 1;
    }
  }

  lemma AddressWithGap(items: seq<Item>, gap: int, tmp: seq<Byte>, tp: nat)
    requires ValidForm(items, gap) && Stored(tmp, tp, items, |items|)
    ensures gap < 0 ==> tp == 16 && tmp == Address(items, gap)
    ensures gap >= 0 ==>
      var c := |AllBytes(items[..gap])|;
      c <= tp < 16 && tmp[..c] + Zeros(16 - tp) + tmp[c..tp] == Address(items, gap)
    ensures forall j :: tp <= j < 16 ==> tmp[j] == 0
  {
    assert items[..|items|] == items;
    if gap >= 0 {
      SplitBytes(items, gap);
      TakeApart(AllBytes(items[..gap]), AllBytes(items[gap..]), tmp, tp);
    } else {
      assert tmp == AllBytes(items) + [];
    }
  }

  lemma TakeApart(head: seq<Byte>, tail: seq<Byte>, tmp: seq<Byte>, tp: nat)
    requires tp == |head| + |tail| <= 16 && tmp == head + tail + Zeros(16 - tp)
    ensures tmp[..|head|] + Zeros(16 - tp) + tmp[|head|..tp] == Fill(head, tail)
  {
    assert tmp[..|head|] == head && tmp[|head|..tp] == tail;
  }

  /** The variables, on the way through the text of the form if there is one. */
  ghost predicate Track(src: string, p: nat, items: seq<Item>, gap: int, pos: Pos, v: Vars) {
    && InRange(src, p, v)
    && (ValidForm(items, gap) && src == Text(items, gap) ==> Sync(src, p, items, gap, pos, v))
  }

  ghost predicate IsForm(src: string, items: seq<Item>, gap: int) {
    ValidForm(items, gap) && src == Text(items, gap)
  }

  /** The branch for hexadecimal digits. */
  method OnDigit(src: string, p: nat, v: Vars, digit: nat, ghost items: seq<Item>, ghost gap: int, ghost pos: Pos,
      ghost r: Read)
    returns (ok: bool, v': Vars, ghost next: Pos, ghost r': Read)
    requires p < |src| && Track(src, p, items, gap, pos, v) && SoFar(src, p, v, r) && digit == HexDigit(src[p])
    ensures (ok && Track(src, p + 1, items, gap, next, v') && SoFar(src, p + 1, v', r')) ||
      (!ok && !IsForm(src, items, gap))
  {
    next, r' := pos, r;
    if IsForm(src, items, gap) { next := StepDigit(src, p, items, gap, pos, v); }
    v' := v.(seen := v.seen + 1, val := v.val * 16 + digit);
    ok := v'.seen <= 4;
    if ok { ReadDigit(src, p, v, r.items, r.gap); }
  }

  /** The branch for a colon behind digits. */
  method OnGroupEnd(src: string, p: nat, v: Vars, ghost items: seq<Item>, ghost gap: int, ghost pos: Pos, ghost r: Read)
    returns (ok: bool, v': Vars, ghost next: Pos, ghost r': Read)
    requires p < |src| && Track(src, p, items, gap, pos, v) && SoFar(src, p, v, r) && src[p] == ':' && v.seen > 0
    ensures (ok && Track(src, p + 1, items, gap, next, v') && SoFar(src, p + 1, v', r')) ||
      (!ok && !IsForm(src, items, gap))
  {
    v', r' := v, r;
    next := TrackGroupEnd(src, p, v, items, gap, pos);
    if p + 1 == |src| {
      return false, v, next, r;
    }
    if v.tp + 2 > 16 {
      return false, v, next, r;
    }
    r' := ReadGroupSoFar(src, p, v, r);
    v' := PushWord(v).(curtok := p + 1);
    ok := true;
  }

  lemma TrackGroupEnd(src: string, p: nat, v: Vars, items: seq<Item>, gap: int, pos: Pos) returns (next: Pos)
    requires p < |src| && Track(src, p, items, gap, pos, v) && src[p] == ':' && v.seen > 0
    ensures if p + 1 < |src| && v.tp + 2 <= 16 then Track(src, p + 1, items, gap, next, PushWord(v).(curtok := p + 1))
            else !IsForm(src, items, gap)
  {
    next := pos;
    if IsForm(src, items, gap) { next := SyncGroupEnd(src, p, v, items, gap, pos); }
    if v.tp + 2 <= 16 { PushInRange(src, p, v); }
  }

  lemma SyncGroupEnd(src: string, p: nat, v: Vars, items: seq<Item>, gap: int, pos: Pos) returns (next: Pos)
    requires p < |src| && Sync(src, p, items, gap, pos, v) && src[p] == ':' && v.seen > 0
    ensures p + 1 < |src| && |v.tmp| == 16 && v.tp + 2 <= 16 && v.val < 0x1_0000
    ensures Sync(src, p + 1, items, gap, next, PushWord(v).(curtok := p + 1))
  {
    next := ItemGroupEnd(src, p, v, items, gap, pos.k, pos.d);
  }

  /** A colon `d` digits into item `k` stands behind them all. */
  lemma ItemGroupEnd(src: string, p: nat, v: Vars, items: seq<Item>, gap: int, k: nat, d: nat) returns (next: Pos)
    requires ValidForm(items, gap) && SyncItem(src, p, items, gap, k, d, v) && p < |src| && src[p] == ':'
    ensures p + 1 < |src| && |v.tmp| == 16 && v.tp + 2 <= 16 && v.val < 0x1_0000
    ensures Sync(src, p + 1, items, gap, next, PushWord(v).(curtok := p + 1))
  {
    ItemEnds(src, p, v, items, gap, k, d);
    next := PushGroup(src, p + 1, items, gap, k, v);
  }

  lemma ItemEnds(src: string, p: nat, v: Vars, items: seq<Item>, gap: int, k: nat, d: nat)
    requires ValidForm(items, gap) && SyncItem(src, p, items, gap, k, d, v) && p < |src| && src[p] == ':'
    ensures items[k].G? && v.val == HexValue(items[k].digits) && p + 1 < |src| && (k + 1 == gap || k + 1 < |items|)
    ensures src[p + 1..] == (if k + 1 == gap then ":" else "") + TextFrom(items, gap, k + 1)
  {
    ItemChar(src, p, items, gap, k, d, v);
    ColonBehind(src, p, items, gap, k);
    AllOf(Lead(items[k]));
  }

  lemma AllOf(s: string)
    ensures s[..|s|] == s
  {
  }

  /** A colon behind item `k`. */
  lemma ColonBehind(src: string, p: nat, items: seq<Item>, gap: int, k: nat)
    requires ValidForm(items, gap) && k < |items| && p < |src| && src[p] == ':' && src[p..] == Behind(items, gap, k)
    ensures items[k].G? && p + 1 < |src| && (k + 1 == gap || k + 1 < |items|)
    ensures src[p + 1..] == (if k + 1 == gap then ":" else "") + TextFrom(items, gap, k + 1)
  {
    assert src[p..][0] == ':' && src[p + 1..] == src[p..][1..];
    BehindFirst(items, gap, k);
    BehindGroup(items, gap, k);
  }

  lemma PushInRange(src: string, p: nat, v: Vars)
    requires p < |src| && InRange(src, p, v) && v.seen > 0 && v.tp + 2 <= 16
    ensures InRange(src, p + 1, PushWord(v).(curtok := p + 1))
  {
  }

  lemma ReadGroupSoFar(src: string, p: nat, v: Vars, r: Read) returns (r': Read)
    requires SoFar(src, p, v, r) && p + 1 < |src| && src[p] == ':' && v.seen > 0 && v.tp + 2 <= 16
    ensures |v.tmp| == 16 && v.val < 0x1_0000 && SoFar(src, p + 1, PushWord(v).(curtok := p + 1), r')
  {
    ReadGroup(src, p, v, r.items, r.gap);
    r' := Read(r.items + [G(src[v.curtok..p])], r.gap, false);
  }

  /** The branch for colons. */
  method OnColon(src: string, p: nat, v: Vars, ghost items: seq<Item>, ghost gap: int, ghost pos: Pos, ghost r: Read)
    returns (ok: bool, v': Vars, ghost next: Pos, ghost r': Read)
    requires p < |src| && Track(src, p, items, gap, pos, v) && SoFar(src, p, v, r) && src[p] == ':'
    ensures (ok && Track(src, p + 1, items, gap, next, v') && SoFar(src, p + 1, v', r')) ||
      (!ok && !IsForm(src, items, gap))
  {
    if v.seen > 0 {
      ok, v', next, r' := OnGroupEnd(src, p, v, items, gap, pos, r);
      return;
    }
    next, v', r' := pos, v, r;
    if IsForm(src, items, gap) { next := StepGap(src, p, items, gap, pos, v); }
    if v.colonp != -1 {
      return false, v, next, r;
    }
    ReadGap(src, p, v, r.items, r.gap);
    v' := v.(curtok := p + 1, colonp := v.tp);
    r' := Read(r.items, |r.items|, false);
    ok := true;
  }

  /** The branch for full stops and anything else. */
  method OnOther(src: string, p: nat, v: Vars, ghost items: seq<Item>, ghost gap: int, ghost pos: Pos, ghost r: Read)
    returns (ok: bool, v': Vars, ghost r': Read)
    requires p < |src| && Track(src, p, items, gap, pos, v) && SoFar(src, p, v, r) && HexDigit(src[p]) < 0
      && src[p] != ':'
    ensures (ok && Track(src, |src|, items, gap, AtEnd, v') && SoFar(src, |src|, v', r')) ||
      (!ok && !IsForm(src, items, gap))
  {
    v', r' := v, r;
    ghost var octets := [];
    if IsForm(src, items, gap) {
      NextChar(src, p, items, gap, pos, v);
      octets := StepDot(src, p, items, gap, pos, v);
    }
    if src[p] != '.' || v.tp + 4 > 16 {
      return false, v, r;
    }
    var quad;
    ok, quad := Pton4(src[v.curtok..], octets);
    if !ok {
      return false, v, r;
    }
    ReadQuad(src, p, v, r.items, r.gap, quad);
    r' := Read(r.items + [V4(quad)], r.gap, true);
    v' := v.(tmp := v.tmp[..v.tp] + quad + v.tmp[v.tp + 4..], tp := v.tp + 4, seen := 0);
  }

  /** A leading "::" is special. */
  method StartParsing(src: string, ghost items: seq<Item>, ghost gap: int)
    returns (ok: bool, p: nat, v: Vars, ghost pos: Pos)
    ensures (ok && p <= |src| && Track(src, p, items, gap, pos, v) && SoFar(src, p, v, Read([], -1, false))) ||
      (!ok && !IsForm(src, items, gap))
  {
    pos := AtEnd;
    if IsForm(src, items, gap) { pos := SyncInitially(src, items, gap); }
    p := 0;
    v := Vars(Zeros(16), 0, -1, 0, 0, 0);
    if |src| > 0 && src[0] == ':' {
      p := 1;
      if |src| == 1 || src[1] != ':' {
        return false, p, v, pos;
      }
    }
    v := v.(curtok := p);
    ok := true;
  }

  /** One turn of the loop over the characters. */
  method OnChar(src: string, p: nat, v: Vars, ghost items: seq<Item>, ghost gap: int, ghost pos: Pos, ghost r: Read)
    returns (ok: bool, p': nat, v': Vars, ghost next: Pos, ghost r': Read)
    requires p < |src| && Track(src, p, items, gap, pos, v) && SoFar(src, p, v, r)
    ensures (ok && p < p' <= |src| && Track(src, p', items, gap, next, v') && SoFar(src, p', v', r')) ||
      (!ok && !IsForm(src, items, gap))
  {
    p', next, r' := p + 1, pos, r;
    var digit := HexDigit(src[p]);
    if digit >= 0 {
      ok, v', next, r' := OnDigit(src, p, v, digit, items, gap, pos, r);
    } else if src[p] == ':' {
      ok, v', next, r' := OnColon(src, p, v, items, gap, pos, r);
    } else {
      ok, v', r' := OnOther(src, p, v, items, gap, pos, r);
      p', next := |src|, AtEnd;
    }
  }

  /** inet_pton6, past the characters; true: `v` holds what was read. */
  method ParseItems(src: string, ghost items: seq<Item>, ghost gap: int)
    returns (ok: bool, v: Vars, ghost pos: Pos, ghost r: Read)
    ensures (ok && Track(src, |src|, items, gap, pos, v) && SoFar(src, |src|, v, r)) ||
      (!ok && !IsForm(src, items, gap))
  {
    var p;
    r := Read([], -1, false);
    ok, p, v, pos := StartParsing(src, items, gap);
    if !ok {
      return;
    }
    while p < |src|
      invariant p <= |src| && Track(src, p, items, gap, pos, v) && SoFar(src, p, v, r)
    {
      ok, p, v, pos, r := OnChar(src, p, v, items, gap, pos, r);
      if !ok {
        return;
      }
    }
    ok := true;
  }

  /** Enough has been stored for an address, given whether there is a gap. */
  predicate Full(v: Vars) {
    |v.tmp| == 16 && -1 <= v.colonp <= v.tp <= 16 && if v.colonp == -1 then v.tp == 16 else v.tp < 16
  }

  /** What is stored, with zeros in the gap. */
  function Filled(v: Vars): seq<Byte>
    requires Full(v)
  {
    if v.colonp == -1 then v.tmp else v.tmp[..v.colonp] + Zeros(16 - v.tp) + v.tmp[v.colonp..v.tp]
  }

  lemma FilledIs(items: seq<Item>, gap: int, v: Vars)
    requires ValidForm(items, gap) && Stored(v.tmp, v.tp, items, |items|) && v.colonp == ColonAt(items, gap, |items|)
    ensures Full(v) && Filled(v) == Address(items, gap)
  {
    AddressWithGap(items, gap, v.tmp, v.tp);
  }

  /** inet_pton6: accepts exactly the forms of an address, and reads each as that address. */
  method Pton6(src: string, ghost items: seq<Item>, ghost gap: int) returns (ok: bool, dst: seq<Byte>, ghost r: Read)
    ensures ok ==> IsForm(src, r.items, r.gap) && dst == Address(r.items, r.gap)
    ensures IsForm(src, items, gap) ==> ok && dst == Address(items, gap)
  {
    var v;
    ghost var pos;
    ok, v, pos, r := ParseItems(src, items, gap);
    if !ok {
      return false, [], r;
    }
    if IsForm(src, items, gap) { TrackEnd(src, items, gap, pos, v); }
    if v.seen > 0 && v.tp + 2 > 16 {
      return false, [], r;
    }
    r := ReadRest(src, v, r);
    if v.seen > 0 {
      v := PushWord(v);
    }
    ok, dst := CloseGap(v);
    if ok { CompleteAddress(src, v, r); }
  }

  /** The end of the text of a form. */
  lemma TrackEnd(src: string, items: seq<Item>, gap: int, pos: Pos, v: Vars)
    requires Track(src, |src|, items, gap, pos, v) && IsForm(src, items, gap)
    ensures v.seen > 0 ==> v.tp + 2 <= 16
    ensures var w := if v.seen > 0 then PushWord(v) else v; Full(w) && Filled(w) == Address(items, gap)
  {
    StepEnd(src, items, gap, pos, v);
    var w := if v.seen > 0 then PushWord(v) else v;
    FilledIs(items, gap, w);
  }

  /** The end of any text. */
  lemma ReadRest(src: string, v: Vars, r: Read) returns (r': Read)
    requires SoFar(src, |src|, v, r) && (v.seen > 0 ==> v.tp + 2 <= 16)
    ensures v.seen > 0 ==> |v.tmp| == 16 && v.val < 0x1_0000
    ensures Complete(src, if v.seen > 0 then PushWord(v) else v, r'.items, r'.gap)
  {
    r' := r;
    if v.seen > 0 {
      ReadLast(src, v, r.items, r.gap);
      r' := Read(r.items + [G(src[v.curtok..])], r.gap, true);
    } else if !r.done {
      ReadNothing(src, v, r.items, r.gap);
    }
  }

  lemma CompleteAddress(src: string, v: Vars, r: Read)
    requires Complete(src, v, r.items, r.gap) && Full(v)
    ensures IsForm(src, r.items, r.gap) && Address(r.items, r.gap) == Filled(v)
  {
    CompleteIsForm(src, v, r.items, r.gap);
    FilledIs(r.items, r.gap, v);
  }

  /** All items are stored: puts those behind the gap at the end, and checks that the address is full. */
  method CloseGap(v: Vars) returns (ok: bool, dst: seq<Byte>)
    requires |v.tmp| == 16 && v.tp <= 16 && -1 <= v.colonp <= v.tp && forall j :: v.tp <= j < 16 ==> v.tmp[j] == 0
    ensures ok <==> Full(v)
    ensures ok ==> dst == Filled(v)
  {
    dst := v.tmp;
    var end := v.tp;
    if v.colonp != -1 {
      if v.tp == 16 {
        return false, [];
      }
      dst := ShiftTail(v.tmp, v.colonp, v.tp);
      end := 16;
    }
    if end != 16 {
      return false, [];
    }
    ok := true;
  }
}
