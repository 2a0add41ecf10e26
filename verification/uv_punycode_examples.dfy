/** Two labels in full: the parameters of section 5 of RFC 3492 show in their texts. */
module PunycodeExamples {
  import opened Arith
  import opened Bytes
  import opened Punycode
  import opened Wrappers

  lemma OneDigit(b: Byte, rest: seq<Byte>, i: nat, w: nat, k: nat, bias: nat)
    requires DigitValue(b).Some?
    ensures var d, t := DigitValue(b).value, Threshold(k, bias);
      ReadInt([b] + rest, i, w, k, bias) ==
        if d < t then Some((i + d * w, rest)) else ReadInt(rest, i + d * w, w * (36 - t), k + 36, bias)
  {
    assert ([b] + rest)[1..] == rest;
  }

  /** "kva" */
  lemma ReadsKva(rest: seq<Byte>)
    ensures ReadInt([107] + ([118] + ([97] + rest)), 0, 1, 36, 72) == Some((745, rest))
  {
    OneDigit(107, [118] + ([97] + rest), 0, 1, 36, 72);
    OneDigit(118, [97] + rest, 10, 35, 72, 72);
    OneDigit(97, rest, 745, 1225, 108, 72);
  }

  /** "tda" */
  lemma ReadsTda(rest: seq<Byte>)
    ensures ReadInt([116] + ([100] + ([97] + rest)), 0, 1, 36, 72) == Some((124, rest))
  {
    OneDigit(116, [100] + ([97] + rest), 0, 1, 36, 72);
    OneDigit(100, [97] + rest, 19, 35, 72, 72);
    OneDigit(97, rest, 124, 1225, 108, 72);
  }

  /** "0872c" */
  lemma Reads0872c(rest: seq<Byte>)
    ensures ReadInt([48] + ([56] + ([55] + ([50] + ([99] + rest)))), 1, 1, 36, 0) == Some((51667, rest))
  {
    OneDigit(48, [56] + ([55] + ([50] + ([99] + rest))), 1, 1, 36, 0);
    OneDigit(56, [55] + ([50] + ([99] + rest)), 27, 10, 72, 0);
    OneDigit(55, [50] + ([99] + rest), 367, 100, 108, 0);
    OneDigit(50, [99] + rest, 3667, 1000, 144, 0);
    OneDigit(99, rest, 31667, 10000, 180, 0);
  }

  /** "b2a" */
  lemma ReadsB2a(rest: seq<Byte>)
    ensures ReadInt([98] + ([50] + ([97] + rest)), 2, 1, 36, 88) == Some((983, rest))
  {
    OneDigit(98, [50] + ([97] + rest), 2, 1, 36, 88);
    OneDigit(50, [97] + rest, 3, 35, 72, 88);
    OneDigit(97, rest, 983, 1225, 108, 88);
  }

  /** The bias after the first two integers of the longer one, in which the loop of section 6.1 runs. */
  lemma Biases()
    ensures Adapt(124, 1, true) == 0 && Adapt(51666, 2, false) == 88
  {
    assert 25833 + 25833 / 2 == 38749 && 38749 / 35 == 1107 && 1107 / 35 == 31;
    assert AdaptLoop(38749, 0) == AdaptLoop(1107, 36) == AdaptLoop(31, 72) == 72 + 36 * 31 / 69;
  }

  /** The numbers of section 5: tmin 1, tmax 26, skew 38, damp 700, and the bound (36 - 1) * 26 / 2. */
  lemma Parameters(k: nat, bias: nat)
    ensures k <= bias ==> Threshold(k, bias) == 1
    ensures bias < k < bias + 26 ==> Threshold(k, bias) == k - bias
    ensures k >= bias + 26 ==> Threshold(k, bias) == 26
    ensures Adapt(699, 1, true) == 0 && Adapt(700, 1, true) == 36 * 2 / 40
    ensures AdaptLoop(455, 0) == 36 * 455 / (455 + 38) && AdaptLoop(456, 0) == 36 + 36 * 13 / (13 + 38)
  {
    assert 456 / 35 == 13 && AdaptLoop(456, 0) == AdaptLoop(13, 36);
  }

  lemma Extended(a: seq<Byte>, st: State, i: nat, rest: seq<Byte>)
    requires a != [] && ReadInt(a, st.i, 1, 36, st.bias) == Some((i, rest)) && i >= st.i
    ensures Extend(a, st) == Extend(rest, Insert(st, i))
  {
  }

  /** "bcher-kva" is b, U+00FC, c, h, e, r. */
  lemma OnePoint(input: seq<Byte>)
    requires input == [98, 99, 104, 101, 114, 45, 107, 118, 97]
    ensures Decode(input) == Some([98, 0xFC, 99, 104, 101, 114])
  {
    var basic, digits := input[..5], input[6..];
    OneInteger(digits, basic);
    DecodeParts(basic, digits, Insert(Initial(basic), 745));
    assert basic + [DELIMITER] + digits == input;
  }

  lemma OneInteger(digits: seq<Byte>, basic: seq<Byte>)
    requires digits == [107, 118, 97] && basic == [98, 99, 104, 101, 114]
    ensures var st := Insert(Initial(basic), 745);
      Extend(digits, Initial(basic)) == Some(st) && st.out == [98, 0xFC, 99, 104, 101, 114]
  {
    ReadsKva([]);
    assert [107] + ([118] + ([97] + [])) == digits;
    Extended(digits, Initial(basic), 745, []);
    assert 745 / 6 == 124 && 745 % 6 == 1;
    assert basic[..1] == [98] && basic[1..] == [99, 104, 101, 114];
  }

  /** "tda0872cb2a" is U+00FC, U+65E5, U+672C. */
  lemma ThreePoints(input: seq<Byte>)
    requires input == [116, 100, 97, 48, 56, 55, 50, 99, 98, 50, 97]
    ensures Decode(input) == Some([0xFC, 0x65E5, 0x672C])
  {
    TakenApart(input);
    NoBasic(input, Insert(State(26085, 2, 88, [252, 26085]), 983));
  }

  lemma TakenApart(input: seq<Byte>)
    requires input == [116, 100, 97, 48, 56, 55, 50, 99, 98, 50, 97]
    ensures var st := Insert(State(26085, 2, 88, [252, 26085]), 983);
      Extend(input, Initial([])) == Some(st) && st.out == [0xFC, 0x65E5, 0x672C]
  {
    var middle: seq<Byte> := [48, 56, 55, 50, 99, 98, 50, 97];
    Middle([98, 50, 97], middle);
    Front(middle, input);
    ThreeIntegers([98, 50, 97], middle, input);
  }

  lemma NoBasic(digits: seq<Byte>, st: State)
    requires DELIMITER !in digits && Extend(digits, Initial([])) == Some(st)
    ensures Decode(digits) == Some(st.out)
  {
    DecodeParts([], digits, st);
    assert [] + digits == digits;
  }

  lemma Middle(last: seq<Byte>, middle: seq<Byte>)
    requires last == [98, 50, 97] && middle == [48, 56, 55, 50, 99, 98, 50, 97]
    ensures last == [98] + ([50] + ([97] + [])) && middle == [48] + ([56] + ([55] + ([50] + ([99] + last))))
  {
    assert [50] + ([99] + last) == [50, 99, 98, 50, 97];
  }

  lemma Front(middle: seq<Byte>, input: seq<Byte>)
    requires |middle| == 8 && |input| == 11 && input[0] == 116 && input[1] == 100 && input[2] == 97
    requires input[3..] == middle
    ensures input == [116] + ([100] + ([97] + middle))
  {
    assert input[1..][1..][1..] == input[3..];
    assert input[1..] == [100] + input[1..][1..] && input[1..][1..] == [97] + input[1..][1..][1..];
  }

  lemma ThreeIntegers(last: seq<Byte>, middle: seq<Byte>, input: seq<Byte>)
    requires last == [98] + ([50] + ([97] + []))
    requires middle == [48] + ([56] + ([55] + ([50] + ([99] + last))))
    requires input == [116] + ([100] + ([97] + middle))
    ensures var st := Insert(State(26085, 2, 88, [252, 26085]), 983);
      Extend(input, Initial([])) == Some(st) && st.out == [0xFC, 0x65E5, 0x672C]
  {
    ReadsTda(middle);
    Reads0872c(last);
    ReadsB2a([]);
    Inserts();
    Extended(input, Initial([]), 124, middle);
    Extended(middle, State(252, 1, 0, [252]), 51667, last);
    Extended(last, State(26085, 2, 88, [252, 26085]), 983, []);
  }

  lemma Inserts()
    ensures Insert(Initial([]), 124) == State(252, 1, 0, [252])
    ensures Insert(State(252, 1, 0, [252]), 51667) == State(26085, 2, 88, [252, 26085])
    ensures Insert(State(26085, 2, 88, [252, 26085]), 983).out == [252, 26085, 26412]
  {
    Biases();
    assert 51667 / 2 == 25833 && 983 / 3 == 327 && 983 % 3 == 2;
    assert [252, 26085][..2] == [252, 26085] && [252][..1] == [252];
  }
}
