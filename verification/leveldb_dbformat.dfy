/** Internal keys as bytes: user key, then eight bytes holding (sequence << 8) | type. */
module DbFormat {
  import opened Bytes
  import opened MvccStore
  import opened Wrappers

  const VALUE_TYPE_FOR_SEEK := TypeValue

  datatype ParsedInternalKey = ParsedInternalKey(userKey: seq<Byte>, sequence: nat, typ: ValueType)

  function AppendInternalKey(result: seq<Byte>, key: ParsedInternalKey): seq<Byte> {
    result + key.userKey + EncodeFixed(PackSequenceAndType(key.sequence, key.typ), 8)
  }

  function ExtractUserKey(internalKey: seq<Byte>): seq<Byte>
    requires |internalKey| >= 8
  {
    internalKey[..|internalKey| - 8]
  }

  function TrailerOf(internalKey: seq<Byte>): nat
    requires |internalKey| >= 8
  {
    DecodeFixed(internalKey[|internalKey| - 8..])
  }

  function ParseInternalKey(internalKey: seq<Byte>): Option<ParsedInternalKey> {
    if |internalKey| < 8 then None
    else
      var num := TrailerOf(internalKey);
      var c := num % 256;
      if c > 1 then None
      else Some(ParsedInternalKey(ExtractUserKey(internalKey), num / 256, if c == 1 then TypeValue else TypeDeletion))
  }

  lemma AppendedParts(key: ParsedInternalKey)
    requires key.sequence <= MAX_SEQUENCE_NUMBER
    ensures var b := AppendInternalKey([], key);
            |b| >= 8 && ExtractUserKey(b) == key.userKey && TrailerOf(b) == PackSequenceAndType(key.sequence, key.typ)
  {
    var b := AppendInternalKey([], key);
    var tag := PackSequenceAndType(key.sequence, key.typ);
    Pow256Of8();
    DecodeEncodeFixed(tag, 8);
    assert b[|b| - 8..] == EncodeFixed(tag, 8);
    assert b[..|b| - 8] == key.userKey;
  }

  /** Behind the user key the type as one byte, 1 for a value and 0 for a deletion, and the sequence number in seven,
      low byte first. */
  lemma KeyInBytes(key: ParsedInternalKey)
    requires key.sequence <= MAX_SEQUENCE_NUMBER
    ensures var b, n := AppendInternalKey([], key), |key.userKey|;
      && |b| == n + 8 && b[..n] == key.userKey
      && b[n] == (match key.typ case TypeDeletion => 0 case TypeValue => 1)
      && forall k :: 0 <= k < 7 ==> b[n + 1 + k] == key.sequence / Pow256(k) % 256
  {
    var typ, s := if key.typ.TypeValue? then 1 else 0, EncodeFixed(key.sequence, 7);
    TrailerBytes(key.sequence, typ);
    assert PackSequenceAndType(key.sequence, key.typ) == key.sequence * 256 + typ;
    InBytes(AppendInternalKey([], key), key.userKey, typ, s);
    forall k | 0 <= k < 7
      ensures s[k] == key.sequence / Pow256(k) % 256
    {
      EncodedByte(key.sequence, 7, k);
    }
  }

  lemma InBytes(b: seq<Byte>, userKey: seq<Byte>, typ: Byte, s: seq<Byte>)
    requires b == [] + userKey + ([typ] + s)
    ensures var n := |userKey|;
      && |b| == n + 1 + |s| && b[..n] == userKey && b[n] == typ
      && forall k :: 0 <= k < |s| ==> b[n + 1 + k] == s[k]
  {
  }

  lemma TrailerBytes(sequence: nat, t: Byte)
    ensures EncodeFixed(sequence * 256 + t, 8) == [t] + EncodeFixed(sequence, 7)
  {
    assert (sequence * 256 + t) / 256 == sequence && (sequence * 256 + t) % 256 == t;
  }

  /** Parsing undoes appending, for every key whose sequence fits in 56 bits. */
  lemma ParseOfAppend(key: ParsedInternalKey)
    requires key.sequence <= MAX_SEQUENCE_NUMBER
    ensures ParseInternalKey(AppendInternalKey([], key)) == Some(key)
  {
    AppendedParts(key);
  }

  /** Bytes parse exactly when they are the encoding of a key, and then of the parsed one. */
  lemma AppendOfParse(b: seq<Byte>)
    ensures ParseInternalKey(b).Some? <==>
      exists key: ParsedInternalKey :: key.sequence <= MAX_SEQUENCE_NUMBER && b == AppendInternalKey([], key)
    ensures ParseInternalKey(b).Some? ==> b == AppendInternalKey([], ParseInternalKey(b).value)
  {
    if ParseInternalKey(b).Some? {
      var key := ParseInternalKey(b).value;
      var trailer := b[|b| - 8..];
      EncodeDecodeFixed(trailer);
      Pow256Of8();
      assert PackSequenceAndType(key.sequence, key.typ) == DecodeFixed(trailer);
      assert b == key.userKey + trailer;
      assert b == AppendInternalKey([], key);
    }
    forall key: ParsedInternalKey | key.sequence <= MAX_SEQUENCE_NUMBER && b == AppendInternalKey([], key)
      ensures ParseInternalKey(b).Some?
    {
      ParseOfAppend(key);
    }
  }

  type Comparator = (seq<Byte>, seq<Byte>) -> int

  function InternalCompare(userCompare: Comparator, a: seq<Byte>, b: seq<Byte>): int
    requires |a| >= 8 && |b| >= 8
  {
    var r := userCompare(ExtractUserKey(a), ExtractUserKey(b));
    if r != 0 then r
    else if TrailerOf(a) > TrailerOf(b) then -1
    else if TrailerOf(a) < TrailerOf(b) then 1
    else 0
  }

  /** `rank` places user keys as `userCompare` does; such a rank exists for any finite set of keys. */
  ghost predicate RankAgrees(userCompare: Comparator, rank: seq<Byte> -> UserKey, x: seq<Byte>, y: seq<Byte>) {
    && (userCompare(x, y) < 0 <==> rank(x) < rank(y))
    && (userCompare(x, y) > 0 <==> rank(x) > rank(y))
  }

  function ToEntry(rank: seq<Byte> -> UserKey, k: ParsedInternalKey, value: string): Entry {
    Entry(rank(k.userKey), k.sequence, k.typ, value)
  }

  /** The comparator on encoded keys is the order `Before` on which the store's meaning rests. */
  lemma InternalCompareIsBefore(userCompare: Comparator, rank: seq<Byte> -> UserKey,
                                x: ParsedInternalKey, y: ParsedInternalKey, v: string, w: string)
    requires x.sequence <= MAX_SEQUENCE_NUMBER && y.sequence <= MAX_SEQUENCE_NUMBER
    requires RankAgrees(userCompare, rank, x.userKey, y.userKey)
    ensures var a, b := AppendInternalKey([], x), AppendInternalKey([], y);
            |a| >= 8 && |b| >= 8
            && (InternalCompare(userCompare, a, b) < 0 <==> Before(ToEntry(rank, x, v), ToEntry(rank, y, w)))
            && (InternalCompare(userCompare, a, b) > 0 <==> Before(ToEntry(rank, y, w), ToEntry(rank, x, v)))
  {
    AppendedParts(x);
    AppendedParts(y);
  }

  /** A lookup key for (user key, s) sorts at or before exactly the entries of that key visible at s. */
  lemma LookupKeySeesVisible(userCompare: Comparator, k: seq<Byte>, s: nat, e: ParsedInternalKey)
    requires s <= MAX_SEQUENCE_NUMBER && e.sequence <= MAX_SEQUENCE_NUMBER
    requires userCompare(k, e.userKey) == 0
    ensures var lookup, b := AppendInternalKey([], ParsedInternalKey(k, s, VALUE_TYPE_FOR_SEEK)),
      AppendInternalKey([], e);
            |lookup| >= 8 && |b| >= 8 && (InternalCompare(userCompare, lookup, b) <= 0 <==> e.sequence <= s)
  {
    AppendedParts(ParsedInternalKey(k, s, VALUE_TYPE_FOR_SEEK));
    AppendedParts(e);
  }

  /** FindShortestSeparator's body after the user comparator proposed `tmp` for the user keys. */
  function ShortenedStart(userCompare: Comparator, start: seq<Byte>, tmp: seq<Byte>): seq<Byte>
    requires |start| >= 8
  {
    var userStart := ExtractUserKey(start);
    if |tmp| < |userStart| && userCompare(userStart, tmp) < 0
    then AppendInternalKey([], ParsedInternalKey(tmp, MAX_SEQUENCE_NUMBER, VALUE_TYPE_FOR_SEEK))
    else start
  }

  /** When the proposal lies below the limit's user key, the result separates start from limit. */
  lemma SeparatorSeparates(userCompare: Comparator, start: seq<Byte>, limit: seq<Byte>, tmp: seq<Byte>)
    requires |start| >= 8 && |limit| >= 8 && InternalCompare(userCompare, start, limit) < 0
    requires userCompare(ExtractUserKey(start), tmp) < 0 ==> userCompare(tmp, ExtractUserKey(limit)) < 0
    ensures var r := ShortenedStart(userCompare, start, tmp);
            |r| >= 8 && InternalCompare(userCompare, r, limit) < 0
            && (r == start || (InternalCompare(userCompare, start, r) < 0 && |r| < |start|))
  {
    AppendedParts(ParsedInternalKey(tmp, MAX_SEQUENCE_NUMBER, VALUE_TYPE_FOR_SEEK));
  }
}
