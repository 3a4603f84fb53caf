/** Everything the bencode reader accepts, well-formed or not. A tree is a text read loosely:
    numbers may have leading zeros, a 'd' may stand before any key of a dict, and a dict may end
    with other bytes than 'e' or where its believed length runs out. */
module BencodeTree {
  import opened Bytes
  import opened BencodeFormat

  datatype Tree =
    | IntTree(negative: bool, digits: seq<Byte>)
    | StrTree(digits: seq<Byte>, text: seq<Byte>)
    | ListTree(items: seq<Tree>)
    | DictTree(pairs: seq<TreePair>, end: seq<Byte>)

  datatype TreePair = TreePair(stray: bool, digits: seq<Byte>, key: seq<Byte>, value: Tree)

  // ---------- Numbers in a buffer ----------

  function DigitsEnd(buf: seq<Byte>, p: int): (e: int)
    requires 0 <= p <= |buf|
    ensures p <= e <= |buf|
    ensures forall i | p <= i < e :: IsDigit(buf[i])
    ensures e < |buf| ==> !IsDigit(buf[e])
    decreases |buf| - p
  {
    if p < |buf| && IsDigit(buf[p]) then DigitsEnd(buf, p + 1) else p
  }

  /** Digits of a value at most `max`, and a byte after them. */
  predicate NumberAt(buf: seq<Byte>, p: int, max: int) {
    && 0 <= p < |buf| && IsDigit(buf[p])
    && DigitsEnd(buf, p) < |buf| && DecimalValue(buf[p..DigitsEnd(buf, p)]) <= max
  }

  /** A length and its colon. */
  predicate LengthAt(buf: seq<Byte>, p: int) {
    NumberAt(buf, p, INT_MAX) && buf[DigitsEnd(buf, p)] == COLON
  }

  function TextPos(buf: seq<Byte>, p: int): (q: int)
    requires LengthAt(buf, p)
    ensures p < q <= |buf|
  {
    DigitsEnd(buf, p) + 1
  }

  function TextLength(buf: seq<Byte>, p: int): nat
    requires LengthAt(buf, p)
  {
    DecimalValue(buf[p..DigitsEnd(buf, p)])
  }

  function TextEnd(buf: seq<Byte>, p: int): (q: int)
    requires LengthAt(buf, p)
    ensures p < q
  {
    TextPos(buf, p) + TextLength(buf, p)
  }

  function SignEnd(buf: seq<Byte>, p: int): int {
    if 0 <= p < |buf| && buf[p] == MINUS then p + 1 else p
  }

  /** A number with or without a sign. */
  predicate SignedAt(buf: seq<Byte>, p: int) {
    NumberAt(buf, SignEnd(buf, p), LONG_MAX)
  }

  function SignedEnd(buf: seq<Byte>, p: int): (q: int)
    requires SignedAt(buf, p)
    ensures p < q < |buf|
  {
    DigitsEnd(buf, SignEnd(buf, p))
  }

  function SignedNumber(buf: seq<Byte>, p: int): int
    requires SignedAt(buf, p)
  {
    var n: int := DecimalValue(buf[SignEnd(buf, p)..SignedEnd(buf, p)]);
    if SignEnd(buf, p) == p then n else -n
  }

  // ---------- Reading ----------

  datatype Reading = NoTree | ATree(tree: Tree, next: int)
  datatype PairsReading = NotPairs | ThePairs(pairs: seq<TreePair>, last: int)
  datatype ItemsReading = NotItems | TheItems(items: seq<Tree>, last: int)

  /** What is left of a length after `d` bytes fits an int. */
  predicate Carries(len: int, d: int) {
    0 < len && INT_MIN <= len - d <= INT_MAX
  }

  /** The bytes that are looked at to tell whether a dict goes on can be read. */
  predicate DictReadable(buf: seq<Byte>, q: int) {
    0 <= q < |buf| && (buf[q] == DICT ==> q + 1 < |buf|)
  }

  predicate IsStop(b: Byte) {
    b == END || b == 0 || b == 0x0d
  }

  predicate DictStops(buf: seq<Byte>, start: int, len: int, q: int)
    requires DictReadable(buf, q)
  {
    IsStop(buf[q]) || (buf[q] == DICT && buf[q + 1] == END) || start + len - 1 <= q
  }

  /** The tree at `p` as a cursor of length `len` reads it, and the position after it. */
  function Parse(buf: seq<Byte>, p: int, len: int): (r: Reading)
    ensures r.ATree? ==> 0 <= p < |buf| && p < r.next
    decreases |buf| - p, 1
  {
    if !(0 <= p < |buf|) then NoTree
    else if buf[p] == DICT then
      match ParsePairs(buf, p, len, p)
      case NotPairs => NoTree
      case ThePairs(pairs, q) =>
        if buf[q] == DICT && buf[q + 1] == END then
          ATree(DictTree(pairs, if q == p then [END] else [DICT, END]), q + 2)
        else
          ATree(DictTree(pairs, if q == p then [] else [buf[q]]), q + 1)
    else if buf[p] == LIST then
      match ParseItems(buf, len, p, p + 1)
      case NotItems => NoTree
      case TheItems(items, q) => ATree(ListTree(items), q + 1)
    else if LengthAt(buf, p) then
      if 0 < len && TextEnd(buf, p) <= p + len then
        ATree(StrTree(buf[p..DigitsEnd(buf, p)], TextIn(buf, p)), TextEnd(buf, p))
      else NoTree
    else if buf[p] == INT && SignedAt(buf, p + 1) && buf[SignedEnd(buf, p + 1)] == END then
      var s := SignEnd(buf, p + 1);
      ATree(IntTree(s != p + 1, buf[s..SignedEnd(buf, p + 1)]), SignedEnd(buf, p + 1) + 1)
    else NoTree
  }

  /** A text, as far as it lies in the buffer. */
  function TextIn(buf: seq<Byte>, p: int): seq<Byte>
    requires LengthAt(buf, p)
  {
    if TextEnd(buf, p) <= |buf| then buf[TextPos(buf, p)..TextEnd(buf, p)]
    else buf[TextPos(buf, p)..]
  }

  /** Where the length of the next key stands. */
  function KeyStart(buf: seq<Byte>, q: int): int
    requires 0 <= q < |buf|
  {
    if buf[q] == DICT then q + 1 else q
  }

  /** A key at `q`, and enough length to carry on to its value. */
  predicate KeyAt(buf: seq<Byte>, len: int, q: int) {
    && 0 <= q < |buf| && LengthAt(buf, KeyStart(buf, q))
    && Carries(len, TextEnd(buf, KeyStart(buf, q)) - q)
  }

  /** How a cursor that stands at `q` reads the value after the key there. */
  function ParseValueAt(buf: seq<Byte>, len: int, q: int): (r: Reading)
    requires KeyAt(buf, len, q)
    ensures r.ATree? ==> TextEnd(buf, KeyStart(buf, q)) < |buf| && q < r.next
    decreases |buf| - q - 1, 2
  {
    var p := TextEnd(buf, KeyStart(buf, q));
    Parse(buf, p, len - (p - q))
  }

  /** The pairs from `q` on of a dict that starts at `start`, up to where it stops. */
  function ParsePairs(buf: seq<Byte>, start: int, len: int, q: int): (r: PairsReading)
    ensures r.ThePairs? ==> q <= r.last && DictReadable(buf, r.last)
    ensures r.ThePairs? ==> (r.last == q <==> r.pairs == [])
    decreases |buf| - q, 0
  {
    if !DictReadable(buf, q) then NotPairs
    else if DictStops(buf, start, len, q) then ThePairs([], q)
    else if !KeyAt(buf, len, q) then NotPairs
    else
      match ParseValueAt(buf, len, q)
      case NoTree => NotPairs
      case ATree(value, next) =>
        match ParsePairs(buf, start, len, next)
        case NotPairs => NotPairs
        case ThePairs(rest, last) =>
          ThePairs([PairRead(buf, start, q, value)] + rest, last)
  }

  function PairRead(buf: seq<Byte>, start: int, q: int, value: Tree): TreePair
    requires 0 <= q < |buf| && LengthAt(buf, KeyStart(buf, q))
    requires TextEnd(buf, KeyStart(buf, q)) <= |buf|
  {
    var k := KeyStart(buf, q);
    TreePair(q != start && buf[q] == DICT, buf[k..DigitsEnd(buf, k)],
             buf[TextPos(buf, k)..TextEnd(buf, k)], value)
  }

  /** The items from `p` on, where the list's cursor still stands at `q`. */
  function ParseItems(buf: seq<Byte>, len: int, q: int, p: int): (r: ItemsReading)
    ensures r.TheItems? ==> 0 <= p <= r.last < |buf| && buf[r.last] == END
    decreases |buf| - p, 2
  {
    if !(0 <= p < |buf|) then NotItems
    else if buf[p] == END then TheItems([], p)
    else if !Carries(len, p - q) then NotItems
    else
      match Parse(buf, p, len - (p - q))
      case NoTree => NotItems
      case ATree(item, next) =>
        match ParseItems(buf, len, next, next)
        case NotItems => NotItems
        case TheItems(rest, last) => TheItems([item] + rest, last)
  }

  // ---------- The texts of trees ----------

  function Text(t: Tree): seq<Byte> {
    match t
    case IntTree(negative, digits) => [INT] + (if negative then [MINUS] else []) + digits + [END]
    case StrTree(digits, text) => digits + [COLON] + text
    case ListTree(items) => [LIST] + ItemsText(items) + [END]
    case DictTree(pairs, end) => [DICT] + PairsText(pairs) + end
  }

  function ItemsText(items: seq<Tree>): seq<Byte> {
    if items == [] then [] else Text(items[0]) + ItemsText(items[1..])
  }

  function PairText(p: TreePair): seq<Byte> {
    (if p.stray then [DICT] else []) + p.digits + [COLON] + p.key + Text(p.value)
  }

  function PairsText(pairs: seq<TreePair>): seq<Byte> {
    if pairs == [] then [] else PairText(pairs[0]) + PairsText(pairs[1..])
  }

  // ---------- Which trees stand where ----------

  /** Any digits that spell a number up to `max`. */
  predicate Spells(digits: seq<Byte>, max: int) {
    digits != [] && AllDigits(digits) && DecimalValue(digits) <= max
  }

  /** The tree's text is at `p`, and a cursor of length `len` has room to read it. */
  ghost predicate Stands(buf: seq<Byte>, p: int, len: int, t: Tree)
    decreases t, 0
  {
    match t
    case IntTree(negative, digits) => At(buf, p, Text(t)) && Spells(digits, LONG_MAX)
    case StrTree(digits, text) =>
      && At(buf, p, Text(t)) && Spells(digits, INT_MAX) && DecimalValue(digits) == |text|
      && |Text(t)| <= len
    case ListTree(items) => At(buf, p, [LIST]) && ItemsStand(buf, len, p, p + 1, items)
    case DictTree(pairs, end) => At(buf, p, [DICT]) && PairsStand(buf, p, len, p, pairs, end)
  }

  ghost predicate ItemsStand(buf: seq<Byte>, len: int, q: int, p: int, items: seq<Tree>)
    decreases items, 1
  {
    if items == [] then At(buf, p, [END])
    else
      var next := p + |Text(items[0])|;
      && Carries(len, p - q)
      && Stands(buf, p, len - (p - q), items[0])
      && ItemsStand(buf, len, next, next, items[1..])
  }

  /** The pairs of a dict from `q` on; the 'd' of the dict itself counts to its first pair. */
  ghost predicate PairsStand(buf: seq<Byte>, start: int, len: int, q: int, pairs: seq<TreePair>, end: seq<Byte>)
    decreases pairs, 1
  {
    if pairs == [] then EndStands(buf, start, len, q, end)
    else
      var pair := pairs[0];
      var k := if q == start || pair.stray then q + 1 else q;
      var p := k + |pair.digits| + 1 + |pair.key|;
      && q < start + len - 1
      && (q == start || pair.stray ==> At(buf, q, [DICT]))
      && (q == start ==> !pair.stray)
      && At(buf, k, pair.digits + [COLON] + pair.key)
      && Spells(pair.digits, INT_MAX) && DecimalValue(pair.digits) == |pair.key|
      && Carries(len, p - q)
      && Stands(buf, p, len - (p - q), pair.value)
      && PairsStand(buf, start, len, p + |Text(pair.value)|, pairs[1..], end)
  }

  /** How a dict may end at `q`: properly; with NUL or '\r' for its 'e', or with "de"; or with
      any byte at all, or none, once its length has run out. */
  ghost predicate EndStands(buf: seq<Byte>, start: int, len: int, q: int, end: seq<Byte>) {
    if q == start then
      && DictReadable(buf, q) && buf[q] == DICT
      && if buf[q + 1] == END then end == [END] else end == [] && len <= 1
    else
      && DictReadable(buf, q) && DictStops(buf, start, len, q)
      && end == if buf[q] == DICT && buf[q + 1] == END then [DICT, END] else [buf[q]]
  }

  // ---------- Reading finds exactly the trees that stand ----------

  lemma {:induction false} DigitsEndIs(buf: seq<Byte>, p: int, digits: seq<Byte>)
    requires At(buf, p, digits) && AllDigits(digits)
    requires p + |digits| < |buf| && !IsDigit(buf[p + |digits|])
    ensures DigitsEnd(buf, p) == p + |digits| && buf[p..p + |digits|] == digits
    decreases |digits|
  {
    if digits != [] {
      assert buf[p] == digits[0];
      assert forall i | 0 <= i < |digits| - 1 :: digits[1..][i] == digits[i + 1];
      DigitsEndIs(buf, p + 1, digits[1..]);
      assert digits == [digits[0]] + digits[1..];
    }
  }

  lemma NumberIs(buf: seq<Byte>, p: int, digits: seq<Byte>, stop: Byte, max: int)
    requires At(buf, p, digits + [stop]) && Spells(digits, max) && !IsDigit(stop)
    ensures NumberAt(buf, p, max) && DigitsEnd(buf, p) == p + |digits| < |buf|
    ensures buf[p..p + |digits|] == digits && buf[p + |digits|] == stop
  {
    hide At, DecimalValue;
    AtConcat(buf, p, digits, [stop]);
    AtByte(buf, p, digits, 0);
    AtByte(buf, p + |digits|, [stop], 0);
    DigitsEndIs(buf, p, digits);
  }

  /** The other way round: a number in the buffer spells itself. */
  lemma NumberSpells(buf: seq<Byte>, p: int, max: int)
    requires NumberAt(buf, p, max)
    ensures var e := DigitsEnd(buf, p);
            && p < e && Spells(buf[p..e], max) && At(buf, p, buf[p..e]) && At(buf, e, [buf[e]])
            && At(buf, p, buf[p..e] + [buf[e]])
  {
    var e := DigitsEnd(buf, p);
    AtConcat(buf, p, buf[p..e], [buf[e]]);
  }

  lemma SliceAt(buf: seq<Byte>, p: int, q: int)
    requires 0 <= p <= q <= |buf|
    ensures At(buf, p, buf[p..q])
  {
  }

  /** A length with its text, read from the buffer or standing there. */
  lemma StringStands(buf: seq<Byte>, p: int, digits: seq<Byte>, text: seq<Byte>)
    ensures At(buf, p, digits + [COLON] + text) && Spells(digits, INT_MAX) && DecimalValue(digits) == |text|
            <==>
            && LengthAt(buf, p) && TextEnd(buf, p) <= |buf|
            && digits == buf[p..DigitsEnd(buf, p)] && text == buf[TextPos(buf, p)..TextEnd(buf, p)]
    ensures LengthAt(buf, p) && digits == buf[p..DigitsEnd(buf, p)] ==>
              TextEnd(buf, p) == p + |digits| + 1 + DecimalValue(digits)
  {
    hide At, DecimalValue;
    if At(buf, p, digits + [COLON] + text) && Spells(digits, INT_MAX) && DecimalValue(digits) == |text| {
      AtConcat(buf, p, digits + [COLON], text);
      NumberIs(buf, p, digits, COLON, INT_MAX);
      AtSlice(buf, p + |digits| + 1, text, |text|);
      assert text[..|text|] == text;
      AtRange(buf, p + |digits| + 1, text);
    }
    if LengthAt(buf, p) && TextEnd(buf, p) <= |buf| && digits == buf[p..DigitsEnd(buf, p)]
       && text == buf[TextPos(buf, p)..TextEnd(buf, p)] {
      NumberSpells(buf, p, INT_MAX);
      SliceAt(buf, TextPos(buf, p), TextEnd(buf, p));
      AtConcat(buf, p, digits + [COLON], text);
    }
  }

  lemma AtRange(buf: seq<Byte>, p: int, s: seq<Byte>)
    requires At(buf, p, s)
    ensures 0 <= p && p + |s| <= |buf|
  {
  }

  /** A signed number and its 'e', standing there or read. */
  ghost predicate SignedRead(buf: seq<Byte>, p: int, negative: bool, digits: seq<Byte>) {
    && 0 <= p < |buf| && buf[p] == INT && SignedAt(buf, p + 1) && buf[SignedEnd(buf, p + 1)] == END
    && negative == (SignEnd(buf, p + 1) != p + 1)
    && digits == buf[SignEnd(buf, p + 1)..SignedEnd(buf, p + 1)]
  }

  lemma SignedParts(buf: seq<Byte>, p: int, negative: bool, digits: seq<Byte>)
    ensures var sign := if negative then [MINUS] else [];
            At(buf, p, Text(IntTree(negative, digits))) <==>
            At(buf, p, [INT]) && At(buf, p + 1, sign) && At(buf, p + 1 + |sign|, digits + [END])
  {
    hide At;
    var sign := if negative then [MINUS] else [];
    assert Text(IntTree(negative, digits)) == [INT] + (sign + (digits + [END]));
    AtConcat(buf, p, [INT], sign + (digits + [END]));
    AtConcat(buf, p + 1, sign, digits + [END]);
  }

  lemma SignedStanding(buf: seq<Byte>, p: int, negative: bool, digits: seq<Byte>)
    requires At(buf, p, Text(IntTree(negative, digits))) && Spells(digits, LONG_MAX)
    ensures SignedRead(buf, p, negative, digits)
    ensures SignedEnd(buf, p + 1) + 1 == p + |Text(IntTree(negative, digits))|
  {
    hide At, DecimalValue;
    SignedParts(buf, p, negative, digits);
    AtByte(buf, p, [INT], 0);
    if negative {
      AtByte(buf, p + 1, [MINUS], 0);
    }
    NumberIs(buf, if negative then p + 2 else p + 1, digits, END, LONG_MAX);
  }

  lemma SignedReading(buf: seq<Byte>, p: int, negative: bool, digits: seq<Byte>)
    requires SignedRead(buf, p, negative, digits)
    ensures At(buf, p, Text(IntTree(negative, digits))) && Spells(digits, LONG_MAX)
    ensures SignedEnd(buf, p + 1) + 1 == p + |Text(IntTree(negative, digits))|
  {
    hide At, DecimalValue;
    var d := SignEnd(buf, p + 1);
    NumberSpells(buf, d, LONG_MAX);
    SliceAt(buf, p, p + 1);
    SliceAt(buf, p + 1, d);
    assert buf[p..p + 1] == [INT];
    assert buf[p + 1..d] == if negative then [MINUS] else [];
    SignedParts(buf, p, negative, digits);
  }

  /** What the integer readers find on an encoded integer. */
  lemma IntRead(buf: seq<Byte>, p: int, n: int)
    requires At(buf, p, Encode(Int(n))) && Fits(Int(n))
    ensures SignedAt(buf, p + 1) && buf[SignedEnd(buf, p + 1)] == END
    ensures SignedNumber(buf, p + 1) == n
  {
    hide At, SignedAt, SignEnd;
    var magnitude := if n < 0 then -n else n;
    DigitsSpell(magnitude);
    assert Text(IntTree(n < 0, Digits(magnitude))) == Encode(Int(n));
    SignedStanding(buf, p, n < 0, Digits(magnitude));
  }

  /** Every tree that is read stands, with its text at `p`. */
  lemma {:induction false} ParsedStands(buf: seq<Byte>, p: int, len: int)
    requires Parse(buf, p, len).ATree? && Parse(buf, p, len).next <= |buf|
    ensures Stands(buf, p, len, Parse(buf, p, len).tree)
    ensures Parse(buf, p, len).next == p + |Text(Parse(buf, p, len).tree)|
    decreases |buf| - p, 1
  {
    hide At, DecimalValue, LengthAt, SignedAt, SignEnd, ItemsStand, PairsStand, ItemsText, PairsText;
    var r := Parse(buf, p, len);
    if buf[p] == DICT {
      ParsedPairsStand(buf, p, len, p);
      SliceAt(buf, p, p + 1);
      assert buf[p..p + 1] == [DICT];
    } else if buf[p] == LIST {
      ParsedItemsStand(buf, len, p, p + 1);
      SliceAt(buf, p, p + 1);
      assert buf[p..p + 1] == [LIST];
    } else if LengthAt(buf, p) {
      StringStands(buf, p, r.tree.digits, r.tree.text);
    } else {
      SignedReading(buf, p, r.tree.negative, r.tree.digits);
    }
  }

  lemma {:induction false} ParsedItemsStand(buf: seq<Byte>, len: int, q: int, p: int)
    requires ParseItems(buf, len, q, p).TheItems?
    ensures var r := ParseItems(buf, len, q, p);
            ItemsStand(buf, len, q, p, r.items) && r.last == p + |ItemsText(r.items)|
    decreases |buf| - p, 2
  {
    hide At;
    if buf[p] == END {
      SliceAt(buf, p, p + 1);
      assert buf[p..p + 1] == [END];
    } else {
      var item := Parse(buf, p, len - (p - q));
      ParsedItemsStand(buf, len, item.next, item.next);
      ParsedStands(buf, p, len - (p - q));
      var r := ParseItems(buf, len, q, p);
      assert r.items[1..] == ParseItems(buf, len, item.next, item.next).items;
    }
  }

  lemma {:induction false} ParsedPairsStand(buf: seq<Byte>, start: int, len: int, q: int)
    requires ParsePairs(buf, start, len, q).ThePairs? && start <= q
    requires 0 <= q < |buf| && (q == start ==> buf[q] == DICT)
    ensures var r := ParsePairs(buf, start, len, q);
            && PairsStand(buf, start, len, q, r.pairs, DictTail(buf, start, r.last))
            && r.last == (if q == start && r.pairs != [] then q + 1 else q) + |PairsText(r.pairs)|
    decreases |buf| - q, 0
  {
    hide At, DecimalValue, LengthAt, TextEnd, TextPos, KeyAt, Stands, Text, PairText, ParseValueAt;
    if DictStops(buf, start, len, q) {
      NoPairsStand(buf, start, len, q);
    } else {
      var value := ParseValueAt(buf, len, q);
      ParsedValueStands(buf, len, q);
      ParsedPairsStand(buf, start, len, value.next);
      PairStands(buf, start, len, q, value.tree, ParsePairs(buf, start, len, value.next).pairs,
                 DictTail(buf, start, ParsePairs(buf, start, len, value.next).last));
    }
  }

  lemma NoPairsStand(buf: seq<Byte>, start: int, len: int, q: int)
    requires DictReadable(buf, q) && DictStops(buf, start, len, q)
    requires start <= q && (q == start ==> buf[q] == DICT)
    ensures PairsStand(buf, start, len, q, [], DictTail(buf, start, q))
  {
  }

  lemma {:induction false} ParsedValueStands(buf: seq<Byte>, len: int, q: int)
    requires KeyAt(buf, len, q) && ParseValueAt(buf, len, q).ATree?
    requires ParseValueAt(buf, len, q).next <= |buf|
    ensures var p, r := TextEnd(buf, KeyStart(buf, q)), ParseValueAt(buf, len, q);
            p < |buf| && Stands(buf, p, len - (p - q), r.tree) && r.next == p + |Text(r.tree)|
    decreases |buf| - q - 1, 2
  {
    hide Stands, Text;
    var p := TextEnd(buf, KeyStart(buf, q));
    ParsedStands(buf, p, len - (p - q));
  }

  /** One pair in front of others that stand. */
  lemma PairStands(buf: seq<Byte>, start: int, len: int, q: int, value: Tree, rest: seq<TreePair>,
                   end: seq<Byte>)
    requires DictReadable(buf, q) && !DictStops(buf, start, len, q) && KeyAt(buf, len, q)
    requires start <= q && (q == start ==> buf[q] == DICT)
    requires var p := TextEnd(buf, KeyStart(buf, q));
             && p < |buf| && Stands(buf, p, len - (p - q), value)
             && PairsStand(buf, start, len, p + |Text(value)|, rest, end)
    ensures var pairs := [PairRead(buf, start, q, value)] + rest;
            && PairsStand(buf, start, len, q, pairs, end)
            && (if q == start then q + 1 else q) + |PairText(pairs[0])|
               == TextEnd(buf, KeyStart(buf, q)) + |Text(value)|
            && |PairsText(pairs)| == |PairText(pairs[0])| + |PairsText(rest)|
  {
    hide At, DecimalValue, LengthAt, Stands, Text;
    var pair := PairRead(buf, start, q, value);
    StringStands(buf, KeyStart(buf, q), pair.digits, pair.key);
    if buf[q] == DICT {
      SliceAt(buf, q, q + 1);
      assert buf[q..q + 1] == [DICT];
    }
    assert ([pair] + rest)[1..] == rest;
  }

  /** The bytes with which a dict that stops at `q` is ended. */
  function DictTail(buf: seq<Byte>, start: int, q: int): seq<Byte>
    requires DictReadable(buf, q)
  {
    if buf[q] == DICT && buf[q + 1] == END then if q == start then [END] else [DICT, END]
    else if q == start then [] else [buf[q]]
  }

  /** And every tree that stands is read. */
  lemma {:induction false} StandingParsed(buf: seq<Byte>, p: int, len: int, t: Tree)
    requires Stands(buf, p, len, t)
    ensures Parse(buf, p, len) == ATree(t, p + |Text(t)|)
    decreases t, 0
  {
    hide At, Parse, ItemsStand, PairsStand;
    match t
    case IntTree(negative, digits) => SignedParsed(buf, p, len, negative, digits);
    case StrTree(digits, text) => StringParsed(buf, p, len, digits, text);
    case ListTree(items) =>
      AtByte(buf, p, [LIST], 0);
      StandingItemsParsed(buf, len, p, p + 1, items);
      ListParsed(buf, p, len);
    case DictTree(pairs, end) =>
      AtByte(buf, p, [DICT], 0);
      StandingPairsParsed(buf, p, len, p, pairs, end);
      DictParsed(buf, p, len);
  }

  lemma ListParsed(buf: seq<Byte>, p: int, len: int)
    requires 0 <= p < |buf| && buf[p] == LIST && ParseItems(buf, len, p, p + 1).TheItems?
    ensures var r := ParseItems(buf, len, p, p + 1);
            Parse(buf, p, len) == ATree(ListTree(r.items), r.last + 1)
  {
    hide ParseItems;
  }

  lemma DictParsed(buf: seq<Byte>, p: int, len: int)
    requires 0 <= p < |buf| && buf[p] == DICT && ParsePairs(buf, p, len, p).ThePairs?
    requires DictReadable(buf, ParsePairs(buf, p, len, p).last)
    ensures var r := ParsePairs(buf, p, len, p);
            var end := DictTail(buf, p, r.last);
            Parse(buf, p, len) == ATree(DictTree(r.pairs, end),
                                        (if r.last == p then p + 1 else r.last) + |end|)
  {
    hide ParsePairs;
  }

  lemma SignedParsed(buf: seq<Byte>, p: int, len: int, negative: bool, digits: seq<Byte>)
    requires Stands(buf, p, len, IntTree(negative, digits))
    ensures Parse(buf, p, len) == ATree(IntTree(negative, digits), p + |Text(IntTree(negative, digits))|)
  {
    hide At, DecimalValue, Text, SignedAt, SignEnd, LengthAt;
    SignedStanding(buf, p, negative, digits);
    IntNoLength(buf, p);
  }

  lemma IntNoLength(buf: seq<Byte>, p: int)
    requires 0 <= p < |buf| && buf[p] == INT
    ensures !LengthAt(buf, p)
  {
  }

  lemma StringParsed(buf: seq<Byte>, p: int, len: int, digits: seq<Byte>, text: seq<Byte>)
    requires Stands(buf, p, len, StrTree(digits, text))
    ensures Parse(buf, p, len) == ATree(StrTree(digits, text), p + |digits| + 1 + |text|)
  {
    hide At, DecimalValue;
    StringStands(buf, p, digits, text);
  }

  lemma {:induction false} StandingItemsParsed(buf: seq<Byte>, len: int, q: int, p: int, items: seq<Tree>)
    requires ItemsStand(buf, len, q, p, items)
    ensures ParseItems(buf, len, q, p) == TheItems(items, p + |ItemsText(items)|)
    decreases items, 1
  {
    hide At, Parse, Stands, Text;
    if items == [] {
      AtByte(buf, p, [END], 0);
    } else {
      StandingParsed(buf, p, len - (p - q), items[0]);
      TreeStarts(buf, p, len - (p - q), items[0]);
      var next := p + |Text(items[0])|;
      StandingItemsParsed(buf, len, next, next, items[1..]);
      assert [items[0]] + items[1..] == items;
    }
  }

  lemma TreeStarts(buf: seq<Byte>, p: int, len: int, t: Tree)
    requires Stands(buf, p, len, t)
    ensures 0 <= p < |buf| && buf[p] != END
  {
    hide At, PairsStand, ItemsStand;
    match t
    case IntTree(_, _) => AtByte(buf, p, Text(t), 0);
    case StrTree(_, _) => AtByte(buf, p, Text(t), 0);
    case ListTree(_) => AtByte(buf, p, [LIST], 0);
    case DictTree(_, _) => AtByte(buf, p, [DICT], 0);
  }

  lemma {:induction false} StandingPairsParsed(buf: seq<Byte>, start: int, len: int, q: int,
                                               pairs: seq<TreePair>, end: seq<Byte>)
    requires PairsStand(buf, start, len, q, pairs, end)
    requires 0 <= start <= q && (q == start ==> At(buf, q, [DICT]))
    ensures var r := ParsePairs(buf, start, len, q);
            && r.ThePairs? && r.pairs == pairs && DictReadable(buf, r.last)
            && DictTail(buf, start, r.last) == end
            && r.last == (if q == start && pairs != [] then q + 1 else q) + |PairsText(pairs)|
    decreases pairs, 1
  {
    hide At, DecimalValue, LengthAt, TextEnd, TextPos, KeyAt, Stands, Text, PairText, Parse, ParsePairs,
         PairsStand, PairsText;
    if pairs == [] {
      NoPairsParsed(buf, start, len, q, end);
    } else {
      var value := pairs[0].value;
      PairParsed(buf, start, len, q, pairs, end);
      var p := TextEnd(buf, KeyStart(buf, q));
      StandingParsed(buf, p, len - (p - q), value);
      StandingPairsParsed(buf, start, len, p + |Text(value)|, pairs[1..], end);
      PairsParsed(buf, start, len, q);
      assert [pairs[0]] + pairs[1..] == pairs;
    }
  }

  lemma NoPairsParsed(buf: seq<Byte>, start: int, len: int, q: int, end: seq<Byte>)
    requires PairsStand(buf, start, len, q, [], end)
    ensures DictReadable(buf, q) && ParsePairs(buf, start, len, q) == ThePairs([], q)
    ensures DictTail(buf, start, q) == end && PairsText([]) == []
  {
  }

  /** How reading the pairs from `q` on goes, when a value can be read there. */
  lemma PairsParsed(buf: seq<Byte>, start: int, len: int, q: int)
    requires DictReadable(buf, q) && !DictStops(buf, start, len, q) && KeyAt(buf, len, q)
    requires ParseValueAt(buf, len, q).ATree?
    requires ParsePairs(buf, start, len, ParseValueAt(buf, len, q).next).ThePairs?
    ensures LengthAt(buf, KeyStart(buf, q)) && TextEnd(buf, KeyStart(buf, q)) <= |buf|
    ensures var value := ParseValueAt(buf, len, q);
            var rest := ParsePairs(buf, start, len, value.next);
            ParsePairs(buf, start, len, q) ==
            ThePairs([PairRead(buf, start, q, value.tree)] + rest.pairs, rest.last)
  {
    hide LengthAt, TextEnd, PairRead, ParseValueAt;
  }

  lemma PairParsed(buf: seq<Byte>, start: int, len: int, q: int, pairs: seq<TreePair>, end: seq<Byte>)
    requires PairsStand(buf, start, len, q, pairs, end) && pairs != []
    requires 0 <= start <= q && (q == start ==> At(buf, q, [DICT]))
    ensures DictReadable(buf, q) && !DictStops(buf, start, len, q)
    ensures LengthAt(buf, KeyStart(buf, q)) && KeyAt(buf, len, q)
    ensures var p := TextEnd(buf, KeyStart(buf, q));
            && p <= |buf| && pairs[0] == PairRead(buf, start, q, pairs[0].value)
            && Stands(buf, p, len - (p - q), pairs[0].value)
            && PairsStand(buf, start, len, p + |Text(pairs[0].value)|, pairs[1..], end)
            && (if q == start then q + 1 else q) + |PairText(pairs[0])| == p + |Text(pairs[0].value)|
            && |PairsText(pairs)| == |PairText(pairs[0])| + |PairsText(pairs[1..])|
  {
    hide At, DecimalValue, Stands, Text;
    var pair := pairs[0];
    var k := if q == start || pair.stray then q + 1 else q;
    StringStands(buf, k, pair.digits, pair.key);
    if q == start || pair.stray {
      AtByte(buf, q, [DICT], 0);
    }
  }

  // ---------- Strict trees are values ----------

  /** Written as a value would be: no number has a leading zero or a minus before zero, no dict
      has a stray 'd', and every dict ends in 'e'. */
  predicate Strict(t: Tree) {
    match t
    case IntTree(negative, digits) =>
      digits == Digits(DecimalValue(digits)) && !(negative && DecimalValue(digits) == 0)
    case StrTree(digits, text) => digits == Digits(|text|)
    case ListTree(items) => ItemsStrict(items)
    case DictTree(pairs, end) => PairsStrict(pairs) && end == [END]
  }

  predicate ItemsStrict(items: seq<Tree>) {
    items != [] ==> Strict(items[0]) && ItemsStrict(items[1..])
  }

  predicate PairsStrict(pairs: seq<TreePair>) {
    pairs != [] ==>
      && !pairs[0].stray && pairs[0].digits == Digits(|pairs[0].key|)
      && Strict(pairs[0].value) && PairsStrict(pairs[1..])
  }

  function ValueOf(t: Tree): Value {
    match t
    case IntTree(negative, digits) =>
      var n: int := DecimalValue(digits);
      Int(if negative then -n else n)
    case StrTree(digits, text) => Str(text)
    case ListTree(items) => List(ItemValues(items))
    case DictTree(pairs, end) => Dict(PairValues(pairs))
  }

  function ItemValues(items: seq<Tree>): seq<Value> {
    if items == [] then [] else [ValueOf(items[0])] + ItemValues(items[1..])
  }

  function PairValues(pairs: seq<TreePair>): seq<Pair> {
    if pairs == [] then []
    else [Pair(pairs[0].key, ValueOf(pairs[0].value))] + PairValues(pairs[1..])
  }

  /** The text of a strict tree is the encoding of its value. */
  lemma {:induction false} StrictText(t: Tree)
    requires Strict(t)
    ensures Text(t) == Encode(ValueOf(t))
    decreases t, 0
  {
    hide Digits, DecimalValue;
    match t
    case IntTree(negative, digits) => assert [MINUS] + digits == [MINUS] + Digits(DecimalValue(digits));
    case StrTree(digits, text) =>
    case ListTree(items) => StrictItemsText(items);
    case DictTree(pairs, end) => StrictPairsText(pairs);
  }

  lemma {:induction false} StrictItemsText(items: seq<Tree>)
    requires ItemsStrict(items)
    ensures ItemsText(items) == EncodeItems(ItemValues(items))
    decreases items, 1
  {
    hide Text, Encode;
    if items != [] {
      StrictText(items[0]);
      StrictItemsText(items[1..]);
      assert ItemValues(items)[1..] == ItemValues(items[1..]);
    }
  }

  lemma {:induction false} StrictPairsText(pairs: seq<TreePair>)
    requires PairsStrict(pairs)
    ensures PairsText(pairs) == EncodePairs(PairValues(pairs))
    decreases pairs, 1
  {
    hide Text, Encode, Digits, PairText, EncodePair;
    if pairs != [] {
      StrictText(pairs[0].value);
      StrictPairText(pairs[0]);
      StrictPairsText(pairs[1..]);
      assert PairValues(pairs)[1..] == PairValues(pairs[1..]);
    }
  }

  lemma StrictPairText(p: TreePair)
    requires !p.stray && p.digits == Digits(|p.key|) && Text(p.value) == Encode(ValueOf(p.value))
    ensures PairText(p) == EncodePair(Pair(p.key, ValueOf(p.value)))
  {
    hide Text, Encode, Digits;
  }

  function TreeOf(v: Value): Tree {
    match v
    case Int(n) => IntTree(n < 0, Digits(if n < 0 then -n else n))
    case Str(s) => StrTree(Digits(|s|), s)
    case List(items) => ListTree(ItemTrees(items))
    case Dict(pairs) => DictTree(PairTrees(pairs), [END])
  }

  function ItemTrees(items: seq<Value>): seq<Tree> {
    if items == [] then [] else [TreeOf(items[0])] + ItemTrees(items[1..])
  }

  function PairTrees(pairs: seq<Pair>): seq<TreePair> {
    if pairs == [] then []
    else [TreePair(false, Digits(|pairs[0].key|), pairs[0].key, TreeOf(pairs[0].value))]
         + PairTrees(pairs[1..])
  }

  /** Strict trees and values are the same thing. */
  lemma {:induction false} ValueOfTree(v: Value)
    ensures Strict(TreeOf(v)) && ValueOf(TreeOf(v)) == v
    decreases v, 0
  {
    hide Digits, DecimalValue;
    match v
    case Int(n) => DigitsSpell(if n < 0 then -n else n);
    case Str(s) =>
    case List(items) => ValuesOfItems(items);
    case Dict(pairs) => ValuesOfPairs(pairs);
  }

  lemma {:induction false} ValuesOfItems(items: seq<Value>)
    ensures ItemsStrict(ItemTrees(items)) && ItemValues(ItemTrees(items)) == items
    decreases items, 1
  {
    hide TreeOf, Strict, ValueOf;
    if items != [] {
      ValueOfTree(items[0]);
      ValuesOfItems(items[1..]);
      assert ItemTrees(items)[1..] == ItemTrees(items[1..]);
    }
  }

  lemma {:induction false} ValuesOfPairs(pairs: seq<Pair>)
    ensures PairsStrict(PairTrees(pairs)) && PairValues(PairTrees(pairs)) == pairs
    decreases pairs, 1
  {
    hide TreeOf, Strict, ValueOf, Digits;
    if pairs != [] {
      ValueOfTree(pairs[0].value);
      ValuesOfPairs(pairs[1..]);
      assert PairTrees(pairs)[1..] == PairTrees(pairs[1..]);
    }
  }

  /** A value whose encoding is there and has room stands as its tree. */
  lemma {:induction false} ValueStands(buf: seq<Byte>, p: int, len: int, v: Value)
    requires At(buf, p, Encode(v)) && Fits(v) && |Encode(v)| <= len <= INT_MAX
    ensures Stands(buf, p, len, TreeOf(v)) && Text(TreeOf(v)) == Encode(v)
    decreases v, 0
  {
    hide At, Digits, DecimalValue;
    ValueOfTree(v);
    StrictText(TreeOf(v));
    match v
    case Int(n) => DigitsSpell(if n < 0 then -n else n);
    case Str(s) => DigitsSpell(|s|);
    case List(items) =>
      ListAt(buf, p, items);
      ItemValuesStand(buf, len, p, p + 1, items);
    case Dict(pairs) =>
      DictAt(buf, p, pairs);
      AtRange(buf, p, [DICT]);
      PairValuesStand(buf, p, len, p, pairs);
  }

  lemma {:induction false} ItemValuesStand(buf: seq<Byte>, len: int, q: int, p: int, items: seq<Value>)
    requires ItemsAt(buf, p, items) && ItemsFit(items)
    requires 0 < len <= INT_MAX && q <= p <= q + 1 && p + |EncodeItems(items)| + 1 <= q + len
    ensures ItemsStand(buf, len, q, p, ItemTrees(items))
    decreases items, 1
  {
    hide At, Encode, TreeOf, Stands, Text, Fits;
    if items == [] {
    } else {
      FirstItem(buf, p, items);
      ValueStands(buf, p, len - (p - q), items[0]);
      var next := p + |Encode(items[0])|;
      ItemValuesStand(buf, len, next, next, items[1..]);
      assert ItemTrees(items)[1..] == ItemTrees(items[1..]);
    }
  }

  lemma {:induction false} PairValuesStand(buf: seq<Byte>, start: int, len: int, q: int, pairs: seq<Pair>)
    requires 0 < len <= INT_MAX && 0 <= start <= q && PairsFit(pairs)
    requires q == start ==> At(buf, q, [DICT])
    requires var p := if q == start then q + 1 else q;
             PairsAt(buf, p, pairs) && p + |EncodePairs(pairs)| + 1 <= start + len
    ensures PairsStand(buf, start, len, q, PairTrees(pairs), [END])
    decreases pairs, 1
  {
    hide At, Encode, Digits, DecimalValue, TreeOf, Stands, Text, Fits, PairTrees;
    var p := if q == start then q + 1 else q;
    if q == start {
      AtByte(buf, q, [DICT], 0);
    }
    if pairs == [] {
      NoPairs(buf, p);
      PairTreesSplit(pairs);
    } else {
      var pair := pairs[0];
      FirstPair(buf, p, pairs);
      AtConcat(buf, p, Digits(|pair.key|) + [COLON], pair.key);
      DigitsSpell(|pair.key|);
      PairTreesSplit(pairs);
      var value := ValuePos(p, pairs);
      ValueStands(buf, value, len - (value - q), pair.value);
      PairValuesStand(buf, start, len, RestPos(p, pairs), pairs[1..]);
    }
  }

  lemma PairTreesSplit(pairs: seq<Pair>)
    ensures pairs == [] ==> PairTrees(pairs) == []
    ensures pairs != [] ==>
              var p := pairs[0];
              && PairTrees(pairs) != []
              && PairTrees(pairs)[0] == TreePair(false, Digits(|p.key|), p.key, TreeOf(p.value))
              && PairTrees(pairs)[1..] == PairTrees(pairs[1..])
  {
  }

  /** Where a tree stands, its text is. */
  lemma {:induction false} StandsText(buf: seq<Byte>, p: int, len: int, t: Tree)
    requires Stands(buf, p, len, t)
    ensures At(buf, p, Text(t))
    decreases t, 0
  {
    hide At;
    match t
    case IntTree(_, _) =>
    case StrTree(_, _) =>
    case ListTree(items) =>
      ItemsStandText(buf, len, p, p + 1, items);
      AtConcat(buf, p, [LIST], ItemsText(items) + [END]);
      assert Text(t) == [LIST] + (ItemsText(items) + [END]);
    case DictTree(pairs, end) =>
      AtRange(buf, p, [DICT]);
      PairsStandText(buf, p, len, p, pairs, end);
      AtConcat(buf, p, [DICT], PairsText(pairs) + end);
      assert Text(t) == [DICT] + (PairsText(pairs) + end);
  }

  lemma {:induction false} ItemsStandText(buf: seq<Byte>, len: int, q: int, p: int, items: seq<Tree>)
    requires ItemsStand(buf, len, q, p, items)
    ensures At(buf, p, ItemsText(items) + [END])
    decreases items, 1
  {
    hide At, Stands, Text;
    if items == [] {
      assert ItemsText(items) + [END] == [END];
    } else {
      var next := p + |Text(items[0])|;
      StandsText(buf, p, len - (p - q), items[0]);
      ItemsStandText(buf, len, next, next, items[1..]);
      AtConcat(buf, p, Text(items[0]), ItemsText(items[1..]) + [END]);
      assert ItemsText(items) + [END] == Text(items[0]) + (ItemsText(items[1..]) + [END]);
    }
  }

  lemma {:induction false} PairsStandText(buf: seq<Byte>, start: int, len: int, q: int,
                                          pairs: seq<TreePair>, end: seq<Byte>)
    requires PairsStand(buf, start, len, q, pairs, end)
    requires 0 <= start <= q
    ensures At(buf, if q == start then q + 1 else q, PairsText(pairs) + end)
    decreases pairs, 1
  {
    hide At, Stands, Text, DecimalValue, EndStands;
    if pairs == [] {
      assert PairsText(pairs) + end == end;
      EndText(buf, start, len, q, end);
    } else {
      var pair := pairs[0];
      var body := if q == start then q + 1 else q;
      var k := if q == start || pair.stray then q + 1 else q;
      var p := k + |pair.digits| + 1 + |pair.key|;
      StandsText(buf, p, len - (p - q), pair.value);
      PairsStandText(buf, start, len, p + |Text(pair.value)|, pairs[1..], end);
      PartsAt(buf, body, if pair.stray then [DICT] else [], pair.digits + [COLON] + pair.key,
              Text(pair.value), PairsText(pairs[1..]) + end);
      PairsTextParts(pairs, end);
    }
  }

  lemma PairsTextParts(pairs: seq<TreePair>, end: seq<Byte>)
    requires pairs != []
    ensures var pair := pairs[0];
            PairsText(pairs) + end ==
            (if pair.stray then [DICT] else []) + ((pair.digits + [COLON] + pair.key) +
            (Text(pair.value) + (PairsText(pairs[1..]) + end)))
  {
    hide Text;
  }

  lemma PartsAt(buf: seq<Byte>, p: int, a: seq<Byte>, b: seq<Byte>, c: seq<Byte>, d: seq<Byte>)
    requires a == [] || At(buf, p, a)
    requires At(buf, p + |a|, b) && At(buf, p + |a| + |b|, c) && At(buf, p + |a| + |b| + |c|, d)
    ensures At(buf, p, a + (b + (c + d)))
  {
    AtConcat(buf, p + |a| + |b|, c, d);
    AtConcat(buf, p + |a|, b, c + d);
    AtConcat(buf, p, a, b + (c + d));
  }

  lemma EndText(buf: seq<Byte>, start: int, len: int, q: int, end: seq<Byte>)
    requires EndStands(buf, start, len, q, end)
    ensures At(buf, if q == start then q + 1 else q, end)
  {
  }

  /** What can be read of a strict tree fits the program's types. */
  lemma {:induction false} StandingFits(buf: seq<Byte>, p: int, len: int, t: Tree)
    requires Stands(buf, p, len, t) && Strict(t)
    ensures Fits(ValueOf(t))
    decreases t, 0
  {
    hide At, DecimalValue, Digits;
    match t
    case IntTree(_, _) =>
    case StrTree(_, _) =>
    case ListTree(items) => StandingItemsFit(buf, len, p, p + 1, items);
    case DictTree(pairs, end) => StandingPairsFit(buf, p, len, p, pairs, end);
  }

  lemma {:induction false} StandingItemsFit(buf: seq<Byte>, len: int, q: int, p: int, items: seq<Tree>)
    requires ItemsStand(buf, len, q, p, items) && ItemsStrict(items)
    ensures ItemsFit(ItemValues(items))
    decreases items, 1
  {
    hide At, Stands, Strict, Text, Fits, ValueOf;
    if items != [] {
      var next := p + |Text(items[0])|;
      StandingFits(buf, p, len - (p - q), items[0]);
      StandingItemsFit(buf, len, next, next, items[1..]);
      assert ItemValues(items)[1..] == ItemValues(items[1..]);
    }
  }

  lemma {:induction false} StandingPairsFit(buf: seq<Byte>, start: int, len: int, q: int,
                                            pairs: seq<TreePair>, end: seq<Byte>)
    requires PairsStand(buf, start, len, q, pairs, end) && PairsStrict(pairs)
    ensures PairsFit(PairValues(pairs))
    decreases pairs, 1
  {
    hide At, Stands, Strict, Text, Fits, ValueOf, DecimalValue, Digits;
    if pairs != [] {
      var pair := pairs[0];
      var p := (if q == start || pair.stray then q + 1 else q) + |pair.digits| + 1 + |pair.key|;
      StandingFits(buf, p, len - (p - q), pair.value);
      StandingPairsFit(buf, start, len, p + |Text(pair.value)|, pairs[1..], end);
      assert PairValues(pairs)[1..] == PairValues(pairs[1..]);
    }
  }

  // ---------- What acceptance means ----------

  /** A text is read as a tree if and only if that tree stands there, and then its text does. */
  lemma ReadIffStands(buf: seq<Byte>, p: int, len: int, t: Tree, next: int)
    requires next <= |buf|
    ensures Parse(buf, p, len) == ATree(t, next) <==> Stands(buf, p, len, t) && next == p + |Text(t)|
    ensures Stands(buf, p, len, t) ==> At(buf, p, Text(t))
  {
    hide Parse, Stands, Text, At;
    if Parse(buf, p, len) == ATree(t, next) {
      ParsedStands(buf, p, len);
    }
    if Stands(buf, p, len, t) {
      StandingParsed(buf, p, len, t);
      StandsText(buf, p, len, t);
    }
  }

  /** An encoded value with room for it is read as its tree, up to its end. */
  lemma EncodingRead(buf: seq<Byte>, p: int, len: int, v: Value)
    requires At(buf, p, Encode(v)) && Fits(v) && |Encode(v)| <= len <= INT_MAX
    ensures Parse(buf, p, len) == ATree(TreeOf(v), p + |Encode(v)|)
  {
    hide Parse, Stands, Encode, At, TreeOf, Fits;
    ValueStands(buf, p, len, v);
    StandingParsed(buf, p, len, TreeOf(v));
  }

  /** Some value is encoded at `p` within `len` bytes if and only if the tree read there is
      strict and lies within them; and then it is that value. */
  lemma ValueIffStrict(buf: seq<Byte>, p: int, len: int)
    requires len <= INT_MAX && p + len <= |buf|
    ensures (exists v :: Fits(v) && At(buf, p, Encode(v)) && |Encode(v)| <= len) <==>
            var r := Parse(buf, p, len);
            r.ATree? && Strict(r.tree) && r.next <= p + len
    ensures var r := Parse(buf, p, len);
            r.ATree? && Strict(r.tree) && r.next <= p + len ==>
              At(buf, p, Encode(ValueOf(r.tree))) && r.next == p + |Encode(ValueOf(r.tree))|
  {
    hide Parse, Stands, Encode, At, TreeOf, Fits, Strict, ValueOf, Text;
    var r := Parse(buf, p, len);
    if v :| Fits(v) && At(buf, p, Encode(v)) && |Encode(v)| <= len {
      EncodingRead(buf, p, len, v);
      ValueOfTree(v);
    }
    if r.ATree? && Strict(r.tree) && r.next <= p + len {
      ParsedStands(buf, p, len);
      StandsText(buf, p, len, r.tree);
      StandingFits(buf, p, len, r.tree);
      StrictText(r.tree);
    }
  }

  /** Where a dict stops: at 'e', NUL or '\r', at "de", or where its length runs out. */
  lemma DictStopsAt(buf: seq<Byte>, start: int, len: int, q: int)
    requires DictReadable(buf, q)
    ensures DictStops(buf, start, len, q) <==>
            || buf[q] == 0x65 || buf[q] == 0x00 || buf[q] == 0x0d
            || (buf[q] == 0x64 && buf[q + 1] == 0x65)
            || q - start >= len - 1
  {
  }
}
