/** Bencoded texts byte for byte: the examples of BEP 3 and some that only the reader accepts. */
module BencodeExamples {
  import opened Bytes
  import opened BencodeFormat
  import opened BencodeTree

  /** The examples of BEP 3, byte for byte: "i3e", "i-3e", "i0e", "4:spam", "l4:spam4:eggse",
      "d3:cow3:moo4:spam4:eggse", and a number of two digits. */
  lemma SpecExamples()
    ensures Encode(Int(3)) == [0x69, 0x33, 0x65]
    ensures Encode(Int(-3)) == [0x69, 0x2d, 0x33, 0x65]
    ensures Encode(Int(0)) == [0x69, 0x30, 0x65]
    ensures Encode(Int(-12)) == [0x69, 0x2d, 0x31, 0x32, 0x65]
    ensures Encode(Str(SPAM)) == [0x34, 0x3a] + SPAM
    ensures Encode(List([Str(SPAM), Str(EGGS)])) ==
            [0x6c, 0x34, 0x3a] + SPAM + [0x34, 0x3a] + EGGS + [0x65]
    ensures Encode(Dict([Pair(COW, Str(MOO)), Pair(SPAM, Str(EGGS))])) ==
            [0x64, 0x33, 0x3a] + COW + [0x33, 0x3a] + MOO
            + [0x34, 0x3a] + SPAM + [0x34, 0x3a] + EGGS + [0x65]
  {
    assert Digits(12) == Digits(1) + [DigitByte(2)] == [0x31, 0x32];
    ListExample();
    DictExample();
  }

  lemma ListExample()
    ensures Encode(List([Str(SPAM), Str(EGGS)])) ==
            [0x6c, 0x34, 0x3a] + SPAM + [0x34, 0x3a] + EGGS + [0x65]
  {
    var spam, eggs := Str(SPAM), Str(EGGS);
    assert [spam, eggs][1..] == [eggs] && [eggs][1..] == [];
    assert EncodeItems([eggs]) == Encode(eggs) + EncodeItems([]) == [0x34, 0x3a] + EGGS;
    assert EncodeItems([spam, eggs]) == [0x34, 0x3a] + SPAM + ([0x34, 0x3a] + EGGS);
  }

  lemma DictExample()
    ensures Encode(Dict([Pair(COW, Str(MOO)), Pair(SPAM, Str(EGGS))])) ==
            [0x64, 0x33, 0x3a] + COW + [0x33, 0x3a] + MOO
            + [0x34, 0x3a] + SPAM + [0x34, 0x3a] + EGGS + [0x65]
  {
    hide EncodePair;
    var cow, spam := Pair(COW, Str(MOO)), Pair(SPAM, Str(EGGS));
    PairExamples();
    OnePair(spam);
    assert [cow, spam][1..] == [spam];
    assert EncodePairs([cow, spam]) == EncodePair(cow) + EncodePairs([spam]);
  }

  lemma PairExamples()
    ensures EncodePair(Pair(COW, Str(MOO))) == [0x33, 0x3a] + COW + [0x33, 0x3a] + MOO
    ensures EncodePair(Pair(SPAM, Str(EGGS))) == [0x34, 0x3a] + SPAM + [0x34, 0x3a] + EGGS
  {
    assert Digits(3) == [0x33] && Digits(4) == [0x34];
  }

  lemma OnePair(p: Pair)
    ensures EncodePairs([p]) == EncodePair(p)
  {
    hide EncodePair;
    assert [p][1..] == [];
  }

  /** The texts "spam", "eggs", "cow" and "moo" */
  const SPAM: seq<Byte> := [0x73, 0x70, 0x61, 0x6d]
  const EGGS: seq<Byte> := [0x65, 0x67, 0x67, 0x73]
  const COW: seq<Byte> := [0x63, 0x6f, 0x77]
  const MOO: seq<Byte> := [0x6d, 0x6f, 0x6f]

  /** A text that is the encoding of a value, all of it, is read as that value. */
  lemma WholeTextRead(text: seq<Byte>, v: Value)
    requires text == Encode(v) && Fits(v) && |text| <= INT_MAX
    ensures var r := Parse(text, 0, |text|);
            r.ATree? && r.next == |text| && Strict(r.tree) && ValueOf(r.tree) == v
  {
    hide Parse, Encode, Fits, Strict, ValueOf, TreeOf;
    assert At(text, 0, Encode(v));
    EncodingRead(text, 0, |text|, v);
    ValueOfTree(v);
  }

  /** "i-12e" is read as -12. */
  lemma NumberExample()
    ensures var r := Parse([0x69, 0x2d, 0x31, 0x32, 0x65], 0, 5);
            r.ATree? && r.next == 5 && ValueOf(r.tree) == Int(-12)
  {
    hide Parse, Encode;
    SpecExamples();
    WholeTextRead([0x69, 0x2d, 0x31, 0x32, 0x65], Int(-12));
  }

  /** "d3:cow3:mooe" is read as one pair, cow and moo. */
  lemma DictReadExample()
    ensures var r := Parse([0x64, 0x33, 0x3a, 0x63, 0x6f, 0x77, 0x33, 0x3a, 0x6d, 0x6f, 0x6f, 0x65], 0, 12);
            && r.ATree? && r.next == 12
            && ValueOf(r.tree) == Dict([Pair([0x63, 0x6f, 0x77], Str([0x6d, 0x6f, 0x6f]))])
  {
    hide Parse;
    var v := Dict([Pair([0x63, 0x6f, 0x77], Str([0x6d, 0x6f, 0x6f]))]);
    assert v.pairs[1..] == [];
    WholeTextRead([0x64, 0x33, 0x3a, 0x63, 0x6f, 0x77, 0x33, 0x3a, 0x6d, 0x6f, 0x6f, 0x65], v);
  }

  /** "i007e" is read as 7, though no value is written so. */
  lemma LeadingZeros()
    ensures var r := Parse([0x69, 0x30, 0x30, 0x37, 0x65], 0, 5);
            r.ATree? && ValueOf(r.tree) == Int(7) && !Strict(r.tree)
  {
    hide Parse;
    var digits: seq<Byte> := [0x30, 0x30, 0x37];
    assert digits[..2] == [0x30, 0x30] && digits[..2][..1] == [0x30] && digits[..2][..1][..0] == [];
    assert DecimalValue([0x30]) == 0 && DecimalValue([0x30, 0x30]) == 0 && DecimalValue(digits) == 7;
    StandingParsed([0x69, 0x30, 0x30, 0x37, 0x65], 0, 5, IntTree(false, digits));
  }

  /** "d1:a1:b" and a '\r' for its 'e' is read as a dict. */
  lemma CarriageReturnEnds()
    ensures var r := Parse([0x64, 0x31, 0x3a, 0x61, 0x31, 0x3a, 0x62, 0x0d], 0, 8);
            && r.ATree? && r.next == 8 && !Strict(r.tree)
            && ValueOf(r.tree) == Dict([Pair([0x61], Str([0x62]))])
  {
    hide Parse, Stands, Text;
    var buf := CUT_DICT;
    var pairs := [CUT_PAIR];
    assert pairs[1..] == [];
    CutValueStands();
    CutPairStands();
    CutDictValue();
    StandsDict(buf, pairs, [0x0d]);
    StandingParsed(buf, 0, 8, DictTree(pairs, [0x0d]));
  }

  const CUT_DICT: seq<Byte> := [0x64, 0x31, 0x3a, 0x61, 0x31, 0x3a, 0x62, 0x0d]
  const CUT_VALUE: Tree := StrTree([0x31], [0x62])
  const CUT_PAIR: TreePair := TreePair(false, [0x31], [0x61], CUT_VALUE)

  lemma OneSpells()
    ensures Spells([0x31], INT_MAX) && DecimalValue([0x31]) == 1
  {
    var one: seq<Byte> := [0x31];
    assert one[..0] == [];
  }

  lemma CutValueStands()
    ensures Stands(CUT_DICT, 4, 4, CUT_VALUE) && |Text(CUT_VALUE)| == 3
  {
    hide DecimalValue, Spells;
    OneSpells();
  }

  lemma CutPairStands()
    requires Stands(CUT_DICT, 4, 4, CUT_VALUE) && |Text(CUT_VALUE)| == 3
    ensures PairsStand(CUT_DICT, 0, 8, 0, [CUT_PAIR], [0x0d])
  {
    hide DecimalValue, Spells, Stands, Text, EndStands;
    OneSpells();
    CutEndStands();
    assert [CUT_PAIR][1..] == [];
    assert PairsStand(CUT_DICT, 0, 8, 7, [], [0x0d]);
  }

  lemma CutEndStands()
    ensures EndStands(CUT_DICT, 0, 8, 7, [0x0d])
  {
  }

  lemma StandsDict(buf: seq<Byte>, pairs: seq<TreePair>, end: seq<Byte>)
    requires |buf| > 0 && buf[0] == DICT && PairsStand(buf, 0, 8, 0, pairs, end)
    ensures Stands(buf, 0, 8, DictTree(pairs, end))
  {
    hide PairsStand;
  }

  lemma CutDictValue()
    ensures ValueOf(DictTree([CUT_PAIR], [0x0d])) == Dict([Pair([0x61], Str([0x62]))])
    ensures |Text(DictTree([CUT_PAIR], [0x0d]))| == 8 && !Strict(DictTree([CUT_PAIR], [0x0d]))
  {
    assert [CUT_PAIR][1..] == [];
    assert PairsText([CUT_PAIR]) == PairText(CUT_PAIR) + [];
    assert PairValues([CUT_PAIR]) == [Pair([0x61], Str([0x62]))] + [];
  }
}
