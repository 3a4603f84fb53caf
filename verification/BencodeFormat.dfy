/** The bencoding of BEP 3: values and the bytes that stand for them. */
module BencodeFormat {
  import opened Bytes

  datatype Value =
    | Int(n: int)
    | Str(s: seq<Byte>)
    | List(items: seq<Value>)
    | Dict(pairs: seq<Pair>)

  datatype Pair = Pair(key: seq<Byte>, value: Value)

  const DICT: Byte := 0x64    // 'd'
  const LIST: Byte := 0x6c    // 'l'
  const INT: Byte := 0x69     // 'i'
  const END: Byte := 0x65     // 'e'
  const MINUS: Byte := 0x2d   // '-'

  const INT_MAX: int := 0x7fff_ffff
  const INT_MIN: int := -0x8000_0000
  const LONG_MAX: int := 0x7fff_ffff_ffff_ffff

  function PowerOfTwo(n: nat): int {
    if n == 0 then 1 else 2 * PowerOfTwo(n - 1)
  }

  lemma {:induction false} PowersMultiply(m: nat, n: nat)
    ensures PowerOfTwo(m + n) == PowerOfTwo(m) * PowerOfTwo(n)
  {
    if m > 0 {
      PowersMultiply(m - 1, n);
    }
  }

  /** An int has 32 bits and a long 64, one of them for the sign. */
  lemma Widths()
    ensures INT_MAX == PowerOfTwo(31) - 1 && INT_MIN == -PowerOfTwo(31)
    ensures LONG_MAX == PowerOfTwo(63) - 1
  {
    PowersMultiply(2, 2);
    PowersMultiply(4, 4);
    PowersMultiply(8, 8);
    PowersMultiply(8, 4);
    PowersMultiply(12, 3);
    PowersMultiply(16, 15);
    PowersMultiply(16, 16);
    PowersMultiply(32, 31);
  }

  /** `b - '0'` */
  function DigitValue(b: Byte): (d: nat)
    ensures d < 10
  {
    if b == 0x31 then 1 else if b == 0x32 then 2 else if b == 0x33 then 3
    else if b == 0x34 then 4 else if b == 0x35 then 5 else if b == 0x36 then 6
    else if b == 0x37 then 7 else if b == 0x38 then 8 else if b == 0x39 then 9 else 0
  }

  /** A digit stands for its distance from '0'. */
  lemma DigitIsDistance(b: Byte)
    requires 0x30 <= b <= 0x39
    ensures IsDigit(b) && DigitValue(b) == b as int - 0x30
  {
    assert b == 0x30 || b == 0x31 || b == 0x32 || b == 0x33 || b == 0x34
           || b == 0x35 || b == 0x36 || b == 0x37 || b == 0x38 || b == 0x39;
  }

  function DigitByte(d: nat): (b: Byte)
    requires d < 10
    ensures IsDigit(b) && DigitValue(b) == d
  {
    [0x30, 0x31, 0x32, 0x33, 0x34, 0x35, 0x36, 0x37, 0x38, 0x39][d]
  }

  function Digits(n: nat): seq<Byte> {
    if n < 10 then [DigitByte(n)]
    else Digits(n / 10) + [DigitByte(n % 10)]
  }

  predicate AllDigits(s: seq<Byte>) {
    forall i | 0 <= i < |s| :: IsDigit(s[i])
  }

  /** The number a run of digits spells, most significant digit first. */
  function DecimalValue(s: seq<Byte>): nat {
    if s == [] then 0
    else DecimalValue(s[..|s| - 1]) * 10 + DigitValue(s[|s| - 1])
  }

  /** Writing a number and reading it back. */
  lemma {:induction false} DigitsSpell(n: nat)
    ensures Digits(n) != [] && AllDigits(Digits(n))
    ensures DecimalValue(Digits(n)) == n
  {
    if n < 10 {
      assert Digits(n)[..0] == [];
    } else {
      DigitsSpell(n / 10);
      var s := Digits(n);
      assert s[..|s| - 1] == Digits(n / 10);
    }
  }

  lemma {:induction false} PrefixValueAtMost(s: seq<Byte>, i: nat)
    requires i <= |s|
    ensures DecimalValue(s[..i]) <= DecimalValue(s)
  {
    if i == |s| {
      assert s[..i] == s;
    } else {
      var front := s[..|s| - 1];
      assert s[..i] == front[..i];
      PrefixValueAtMost(front, i);
    }
  }

  function Numeral(n: int): seq<Byte> {
    if n < 0 then [MINUS] + Digits(-n) else Digits(n)
  }

  function EncodeString(s: seq<Byte>): seq<Byte> {
    Digits(|s|) + [COLON] + s
  }

  function Encode(v: Value): (e: seq<Byte>)
    ensures |e| >= 2
  {
    match v
    case Int(n) => [INT] + Numeral(n) + [END]
    case Str(s) => EncodeString(s)
    case List(items) => [LIST] + EncodeItems(items) + [END]
    case Dict(pairs) => [DICT] + EncodePairs(pairs) + [END]
  }

  function EncodeItems(items: seq<Value>): seq<Byte> {
    if items == [] then [] else Encode(items[0]) + EncodeItems(items[1..])
  }

  function EncodePair(p: Pair): seq<Byte> {
    EncodeString(p.key) + Encode(p.value)
  }

  function EncodePairs(pairs: seq<Pair>): seq<Byte> {
    if pairs == [] then [] else EncodePair(pairs[0]) + EncodePairs(pairs[1..])
  }

  /** Numbers fit the program's `long`, lengths its `int`. */
  ghost predicate Fits(v: Value) {
    match v
    case Int(n) => -LONG_MAX <= n <= LONG_MAX
    case Str(s) => |s| <= INT_MAX
    case List(items) => ItemsFit(items)
    case Dict(pairs) => PairsFit(pairs)
  }

  ghost predicate ItemsFit(items: seq<Value>) {
    items != [] ==> Fits(items[0]) && ItemsFit(items[1..])
  }

  ghost predicate PairsFit(pairs: seq<Pair>) {
    pairs != [] ==> |pairs[0].key| <= INT_MAX && Fits(pairs[0].value) && PairsFit(pairs[1..])
  }

  // ---------- Bytes at a place in a buffer ----------

  ghost predicate At(buf: seq<Byte>, p: int, s: seq<Byte>) {
    0 <= p && p + |s| <= |buf| && forall i {:trigger s[i]} | 0 <= i < |s| :: buf[p + i] == s[i]
  }

  lemma AtConcat(buf: seq<Byte>, p: int, a: seq<Byte>, b: seq<Byte>)
    ensures At(buf, p, a + b) <==> At(buf, p, a) && At(buf, p + |a|, b)
  {
    if At(buf, p, a + b) {
      forall i | 0 <= i < |a|
        ensures buf[p + i] == a[i]
      {
        assert (a + b)[i] == a[i];
      }
      forall i | 0 <= i < |b|
        ensures buf[p + |a| + i] == b[i]
      {
        assert (a + b)[|a| + i] == b[i];
      }
    }
  }

  lemma AtByte(buf: seq<Byte>, p: int, s: seq<Byte>, i: nat)
    requires At(buf, p, s) && i < |s|
    ensures 0 <= p + i < |buf| && buf[p + i] == s[i]
  {
  }

  lemma AtSlice(buf: seq<Byte>, p: int, s: seq<Byte>, n: nat)
    requires At(buf, p, s) && n <= |s|
    ensures buf[p..p + n] == s[..n]
  {
  }

  /** The bytes at `p` are exactly a run of digits: what follows is no digit. */
  ghost predicate DigitRun(buf: seq<Byte>, p: int, digits: seq<Byte>) {
    At(buf, p, digits) && p + |digits| < |buf| && !IsDigit(buf[p + |digits|])
  }

  lemma RunOf(buf: seq<Byte>, p: int, n: nat, stop: Byte)
    requires At(buf, p, Digits(n) + [stop]) && !IsDigit(stop)
    ensures DigitRun(buf, p, Digits(n))
  {
    RunBefore(buf, p, n, stop);
  }

  lemma RunPrefix(buf: seq<Byte>, p: int, n: nat, end: int)
    requires DigitRun(buf, p, Digits(n)) && p <= end <= p + |Digits(n)|
    ensures DecimalValue(buf[p..end]) <= n
    ensures end == p + |Digits(n)| ==> DecimalValue(buf[p..end]) == n
    ensures IsDigit(buf[end]) <==> end < p + |Digits(n)|
  {
    hide At, Digits;
    DigitsSpell(n);
    var digits := Digits(n);
    AtSlice(buf, p, digits, end - p);
    PrefixValueAtMost(digits, end - p);
    if end < p + |digits| {
      AtByte(buf, p, digits, end - p);
    } else {
      assert digits[..end - p] == digits;
    }
  }

  lemma RunBefore(buf: seq<Byte>, p: int, n: nat, stop: Byte)
    requires At(buf, p, Digits(n) + [stop]) && !IsDigit(stop)
    ensures 0 <= p && DigitRun(buf, p, Digits(n)) && IsDigit(buf[p])
    ensures p + |Digits(n)| < |buf| && buf[p + |Digits(n)|] == stop
  {
    hide At, Digits;
    DigitsSpell(n);
    AtConcat(buf, p, Digits(n), [stop]);
    AtByte(buf, p, Digits(n), 0);
    AtByte(buf, p + |Digits(n)|, [stop], 0);
  }

  lemma StringAt(buf: seq<Byte>, p: int, s: seq<Byte>)
    requires At(buf, p, EncodeString(s))
    ensures At(buf, p, Digits(|s|) + [COLON]) && At(buf, p + |Digits(|s|)| + 1, s)
  {
    hide At, Digits;
    AtConcat(buf, p, Digits(|s|) + [COLON], s);
  }

  lemma IntAt(buf: seq<Byte>, p: int, n: int)
    requires At(buf, p, Encode(Int(n)))
    ensures At(buf, p + 1, Numeral(n) + [END])
  {
    hide At, Digits;
    assert Encode(Int(n)) == [INT] + (Numeral(n) + [END]);
    AtConcat(buf, p, [INT], Numeral(n) + [END]);
  }

  /** A numeral is a minus sign or not, and then a run of digits up to the 'e'. */
  lemma NumeralAt(buf: seq<Byte>, p: int, n: int)
    requires At(buf, p, Numeral(n) + [END])
    ensures 0 <= p < |buf|
    ensures buf[p] == MINUS <==> n < 0
    ensures At(buf, if n < 0 then p + 1 else p, Digits(if n < 0 then -n else n) + [END])
  {
    hide At, Digits;
    AtByte(buf, p, Numeral(n) + [END], 0);
    if n < 0 {
      assert Numeral(n) + [END] == [MINUS] + (Digits(-n) + [END]);
      AtConcat(buf, p, [MINUS], Digits(-n) + [END]);
    } else {
      RunBefore(buf, p, n, END);
    }
  }

  /** Some pairs at `p` and the 'e' after them. */
  ghost predicate PairsAt(buf: seq<Byte>, p: int, pairs: seq<Pair>) {
    At(buf, p, EncodePairs(pairs)) && At(buf, p + |EncodePairs(pairs)|, [END])
  }

  ghost predicate ItemsAt(buf: seq<Byte>, p: int, items: seq<Value>) {
    At(buf, p, EncodeItems(items)) && At(buf, p + |EncodeItems(items)|, [END])
  }

  lemma DictAt(buf: seq<Byte>, p: int, pairs: seq<Pair>)
    requires At(buf, p, Encode(Dict(pairs)))
    ensures At(buf, p, [DICT]) && PairsAt(buf, p + 1, pairs)
    ensures |Encode(Dict(pairs))| == |EncodePairs(pairs)| + 2
  {
    hide At, EncodePairs;
    AtConcat(buf, p, [DICT] + EncodePairs(pairs), [END]);
    AtConcat(buf, p, [DICT], EncodePairs(pairs));
  }

  lemma ListAt(buf: seq<Byte>, p: int, items: seq<Value>)
    requires At(buf, p, Encode(List(items)))
    ensures At(buf, p, [LIST]) && ItemsAt(buf, p + 1, items)
    ensures |Encode(List(items))| == |EncodeItems(items)| + 2
  {
    hide At, EncodeItems;
    AtConcat(buf, p, [LIST] + EncodeItems(items), [END]);
    AtConcat(buf, p, [LIST], EncodeItems(items));
  }

  /** Where the text of the first key starts. */
  ghost function KeyPos(p: int, pairs: seq<Pair>): int
    requires pairs != []
  {
    p + |Digits(|pairs[0].key|)| + 1
  }

  ghost function ValuePos(p: int, pairs: seq<Pair>): int
    requires pairs != []
  {
    KeyPos(p, pairs) + |pairs[0].key|
  }

  ghost function RestPos(p: int, pairs: seq<Pair>): int
    requires pairs != []
  {
    ValuePos(p, pairs) + |Encode(pairs[0].value)|
  }

  lemma FirstPair(buf: seq<Byte>, p: int, pairs: seq<Pair>)
    requires PairsAt(buf, p, pairs) && pairs != []
    ensures 0 <= p < |buf| && IsDigit(buf[p])
    ensures At(buf, p, EncodeString(pairs[0].key)) && At(buf, p, Digits(|pairs[0].key|) + [COLON])
    ensures At(buf, KeyPos(p, pairs), pairs[0].key)
    ensures At(buf, ValuePos(p, pairs), Encode(pairs[0].value))
    ensures PairsAt(buf, RestPos(p, pairs), pairs[1..])
    ensures p + |EncodePairs(pairs)| == RestPos(p, pairs) + |EncodePairs(pairs[1..])|
  {
    hide At, Encode, Digits;
    AtConcat(buf, p, EncodePair(pairs[0]), EncodePairs(pairs[1..]));
    AtConcat(buf, p, EncodeString(pairs[0].key), Encode(pairs[0].value));
    StringAt(buf, p, pairs[0].key);
    RunBefore(buf, p, |pairs[0].key|, COLON);
  }

  lemma NoPairs(buf: seq<Byte>, p: int)
    requires PairsAt(buf, p, []) || ItemsAt(buf, p, [])
    ensures 0 <= p < |buf| && buf[p] == END
    ensures EncodePairs([]) == EncodeItems([]) == []
  {
    hide At;
    AtByte(buf, p, [END], 0);
  }

  lemma FirstItem(buf: seq<Byte>, p: int, items: seq<Value>)
    requires ItemsAt(buf, p, items) && items != []
    ensures At(buf, p, Encode(items[0]))
    ensures ItemsAt(buf, p + |Encode(items[0])|, items[1..])
    ensures |EncodeItems(items)| == |Encode(items[0])| + |EncodeItems(items[1..])|
    ensures 0 <= p < |buf| && buf[p] != END
  {
    hide At, Encode;
    AtConcat(buf, p, Encode(items[0]), EncodeItems(items[1..]));
    FirstByte(buf, p, items[0]);
  }

  /** The first byte of a value tells its type. */
  lemma FirstByte(buf: seq<Byte>, p: int, v: Value)
    requires At(buf, p, Encode(v))
    ensures 0 <= p < |buf|
    ensures buf[p] == DICT <==> v.Dict?
    ensures buf[p] == LIST <==> v.List?
    ensures buf[p] == INT <==> v.Int?
    ensures IsDigit(buf[p]) <==> v.Str?
    ensures buf[p] != END
  {
    AtByte(buf, p, Encode(v), 0);
    if v.Str? {
      DigitsSpell(|v.s|);
    }
  }

  // ---------- Encodings are self-delimiting ----------

  lemma SameRun(buf: seq<Byte>, p: int, a: nat, b: nat)
    requires DigitRun(buf, p, Digits(a)) && DigitRun(buf, p, Digits(b))
    ensures a == b
  {
    hide At, Digits;
    if |Digits(a)| <= |Digits(b)| {
      RunPrefix(buf, p, b, p + |Digits(a)|);
      RunPrefix(buf, p, a, p + |Digits(a)|);
    } else {
      RunPrefix(buf, p, a, p + |Digits(b)|);
      RunPrefix(buf, p, b, p + |Digits(b)|);
    }
  }

  lemma SameNumber(buf: seq<Byte>, p: int, a: nat, b: nat, stop: Byte)
    requires At(buf, p, Digits(a) + [stop]) && At(buf, p, Digits(b) + [stop]) && !IsDigit(stop)
    ensures a == b
  {
    hide At, Digits, DigitRun, IsDigit;
    RunOf(buf, p, a, stop);
    RunOf(buf, p, b, stop);
    SameRun(buf, p, a, b);
  }

  lemma SameBytes(buf: seq<Byte>, p: int, a: seq<Byte>, b: seq<Byte>)
    requires At(buf, p, a) && At(buf, p, b) && |a| == |b|
    ensures a == b
  {
    AtSlice(buf, p, a, |a|);
    AtSlice(buf, p, b, |b|);
  }

  lemma SameString(buf: seq<Byte>, p: int, a: seq<Byte>, b: seq<Byte>)
    requires At(buf, p, EncodeString(a)) && At(buf, p, EncodeString(b))
    ensures a == b
  {
    hide At, Digits, EncodeString;
    StringAt(buf, p, a);
    StringAt(buf, p, b);
    SameNumber(buf, p, |a|, |b|, COLON);
    SameBytes(buf, p + |Digits(|a|)| + 1, a, b);
  }

  /** At one place stands the encoding of at most one value; in particular no two values
      have the same encoding, and none is a prefix of another's. */
  lemma {:induction false} OneValueAt(buf: seq<Byte>, p: int, v: Value, w: Value)
    requires At(buf, p, Encode(v)) && At(buf, p, Encode(w))
    ensures v == w
    decreases v, 0
  {
    hide At, Digits, EncodeItems, EncodePairs;
    FirstByte(buf, p, v);
    FirstByte(buf, p, w);
    match v
    case Int(n) =>
      IntAt(buf, p, n);
      IntAt(buf, p, w.n);
      NumeralAt(buf, p + 1, n);
      NumeralAt(buf, p + 1, w.n);
      SameNumber(buf, if n < 0 then p + 2 else p + 1,
                 if n < 0 then -n else n, if w.n < 0 then -w.n else w.n, END);
    case Str(s) =>
      SameString(buf, p, s, w.s);
    case List(items) =>
      ListAt(buf, p, items);
      ListAt(buf, p, w.items);
      SameItems(buf, p + 1, items, w.items);
    case Dict(pairs) =>
      DictAt(buf, p, pairs);
      DictAt(buf, p, w.pairs);
      SamePairs(buf, p + 1, pairs, w.pairs);
  }

  lemma {:induction false} SameItems(buf: seq<Byte>, p: int, a: seq<Value>, b: seq<Value>)
    requires ItemsAt(buf, p, a) && ItemsAt(buf, p, b)
    ensures a == b
    decreases a, 1
  {
    hide At, Encode;
    if a == [] || b == [] {
      NoPairs(buf, p);
      if a != [] {
        FirstItem(buf, p, a);
      }
      if b != [] {
        FirstItem(buf, p, b);
      }
    } else {
      FirstItem(buf, p, a);
      FirstItem(buf, p, b);
      OneValueAt(buf, p, a[0], b[0]);
      SameItems(buf, p + |Encode(a[0])|, a[1..], b[1..]);
      assert a == [a[0]] + a[1..] && b == [b[0]] + b[1..];
    }
  }

  lemma {:induction false} SamePairs(buf: seq<Byte>, p: int, a: seq<Pair>, b: seq<Pair>)
    requires PairsAt(buf, p, a) && PairsAt(buf, p, b)
    ensures a == b
    decreases a, 1
  {
    hide At, Encode, Digits, EncodePairs;
    if a == [] || b == [] {
      NoPairs(buf, p);
      if a != [] {
        FirstPair(buf, p, a);
      }
      if b != [] {
        FirstPair(buf, p, b);
      }
    } else {
      FirstPair(buf, p, a);
      FirstPair(buf, p, b);
      SameString(buf, p, a[0].key, b[0].key);
      OneValueAt(buf, ValuePos(p, a), a[0].value, b[0].value);
      SamePairs(buf, RestPos(p, a), a[1..], b[1..]);
      assert a == [a[0]] + a[1..] && b == [b[0]] + b[1..];
    }
  }
}
