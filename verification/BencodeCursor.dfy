/** The bencode reader: cursors that move through a buffer without copying it.

    Every method is total. `Fault` marks the runs in which the program aborts on an assertion
    or leaves defined behaviour: a read outside the buffer, a NULL dereference, or a decimal
    number too large for its C type. On every input the methods do what the reading functions
    of BencodeTree say. */
module BencodeCursor {
  import opened Bytes
  import opened BencodeFormat
  import opened BencodeTree

  /** Pointers are positions in the buffer; this one is no position. */
  const NULL: int := -1

  type CInt = n: int | INT_MIN <= n <= INT_MAX

  datatype Outcome = Ok | Fault

  // ---------- Reading characters and numbers ----------

  method Peek(buf: seq<Byte>, p: int) returns (o: Outcome, c: Byte)
    ensures o.Ok? <==> 0 <= p < |buf|
    ensures o.Ok? ==> c == buf[p]
  {
    if 0 <= p < |buf| {
      return Ok, buf[p];
    }
    return Fault, 0;
  }

  /** The digit loop of both number readers; `max` is the largest value of the C type. */
  method ReadDigits(buf: seq<Byte>, sp: int, max: nat) returns (o: Outcome, end: int, val: nat)
    requires 0 <= sp < |buf| && IsDigit(buf[sp])
    ensures o.Ok? <==> NumberAt(buf, sp, max)
    ensures o.Ok? ==> end == DigitsEnd(buf, sp) && val == DecimalValue(buf[sp..end])
  {
    hide DecimalValue, IsDigit;
    end, val := sp, 0;
    NoDigits(buf, sp);
    while IsDigit(buf[end])
      invariant sp <= end < |buf| && DigitsEnd(buf, end) == DigitsEnd(buf, sp)
      invariant val == DecimalValue(buf[sp..end]) && val <= max
      decreases |buf| - end
    {
      NextDigit(buf, sp, end);
      val := val * 10 + DigitValue(buf[end]);
      if val > max {
        return Fault, end, 0;
      }
      end := end + 1;
      if end >= |buf| {
        return Fault, end, 0;
      }
    }
    o := Ok;
  }

  lemma NoDigits(buf: seq<Byte>, sp: int)
    requires 0 <= sp <= |buf|
    ensures DecimalValue(buf[sp..sp]) == 0
  {
  }

  /** One more digit of a number, which is at most the whole number. */
  lemma NextDigit(buf: seq<Byte>, sp: int, end: int)
    requires 0 <= sp <= end < |buf| && IsDigit(buf[end]) && DigitsEnd(buf, end) == DigitsEnd(buf, sp)
    ensures DigitsEnd(buf, end + 1) == DigitsEnd(buf, sp)
    ensures DecimalValue(buf[sp..end + 1]) == DecimalValue(buf[sp..end]) * 10 + DigitValue(buf[end])
    ensures DecimalValue(buf[sp..end + 1]) <= DecimalValue(buf[sp..DigitsEnd(buf, sp)])
  {
    assert buf[sp..end + 1][..end - sp] == buf[sp..end];
    PrefixValueAtMost(buf[sp..DigitsEnd(buf, sp)], end + 1 - sp);
    assert buf[sp..DigitsEnd(buf, sp)][..end + 1 - sp] == buf[sp..end + 1];
  }

  method ReadStringInt(buf: seq<Byte>, sp: int) returns (o: Outcome, ret: int, end: int, val: int)
    ensures o.Ok? && ret != 0 <==> SignedAt(buf, sp)
    ensures SignedAt(buf, sp) ==>
              ret == 1 && 0 <= end == SignedEnd(buf, sp) < |buf| && val == SignedNumber(buf, sp)
  {
    var sign: int, p := 1, sp;
    ret, end, val := 0, sp, 0;
    var c;
    o, c := Peek(buf, p);
    if o.Fault? {
      return;
    }
    if c == MINUS {
      sign := -1;
      p := p + 1;
    }
    assert p == SignEnd(buf, sp);
    o, c := Peek(buf, p);
    if o.Fault? || !IsDigit(c) {
      return;
    }
    var digits;
    o, end, digits := ReadDigits(buf, p, LONG_MAX);
    if o.Ok? {
      val := digits * sign;
      ret := 1;
    }
  }

  /** The position after "digits:", or NULL when no digit stands at `sp`. */
  method ReadStringLen(buf: seq<Byte>, sp: int) returns (o: Outcome, r: int, slen: int)
    ensures o.Ok? && r != NULL <==> LengthAt(buf, sp)
    ensures LengthAt(buf, sp) ==> r == TextPos(buf, sp) && slen == TextLength(buf, sp)
    ensures o.Ok? && r == NULL ==> 0 <= sp < |buf| && !IsDigit(buf[sp])
  {
    r, slen := NULL, 0;
    var c;
    o, c := Peek(buf, sp);
    if o.Fault? || !IsDigit(c) {
      return;
    }
    var end;
    o, end, slen := ReadDigits(buf, sp, INT_MAX);
    if o.Fault? {
      return;
    }
    if buf[end] != COLON {
      return Fault, NULL, slen;
    }
    r := end + 1;
  }

  // ---------- Cursors ----------

  class Cursor {
    const buf: seq<Byte>
    var str: int
    const start: int
    const len: CInt

    constructor (buf: seq<Byte>, str: int, len: CInt)
      ensures this.buf == buf && this.str == this.start == str && this.len == len
    {
      this.buf := buf;
      this.str := str;
      this.start := str;
      this.len := len;
    }

    constructor Clone(be: Cursor)
      ensures buf == be.buf && str == be.str && start == be.start && len == be.len
    {
      buf := be.buf;
      str := be.str;
      start := be.start;
      len := be.len;
    }

    // ----- Well-formed input -----

    /** A fresh cursor on the encoding of `v` whose believed end is not before the real one. */
    ghost predicate Covers(v: Value)
      reads this
    {
      && str == start && At(buf, str, Encode(v)) && Fits(v)
      && str + |Encode(v)| <= start + len
    }

    /** `v` is encoded at `p`, inside what this cursor passes on as a believed end. */
    ghost predicate Sees(p: int, v: Value)
      reads this
    {
      && 0 < len && str <= p
      && At(buf, p, Encode(v)) && Fits(v)
      && p + |Encode(v)| <= str + len
    }

    // ----- Types -----

    method IsDict() returns (o: Outcome, b: bool)
      ensures str == NULL ==> o.Ok? && !b
      ensures 0 <= str < |buf| ==> o.Ok? && (b <==> buf[str] == DICT)
      ensures o.Ok? && b ==> 0 <= str < |buf|
    {
      if str == NULL {
        return Ok, false;
      }
      var c;
      o, c := Peek(buf, str);
      b := o.Ok? && c == DICT;
    }

    method IsInt() returns (o: Outcome, b: bool)
      ensures str == NULL ==> o.Ok? && !b
      ensures 0 <= str < |buf| ==> o.Ok? && (b <==> buf[str] == INT)
      ensures o.Ok? && b ==> 0 <= str < |buf|
    {
      if str == NULL {
        return Ok, false;
      }
      var c;
      o, c := Peek(buf, str);
      b := o.Ok? && c == INT;
    }

    method IsList() returns (o: Outcome, b: bool)
      ensures str == NULL ==> o.Ok? && !b
      ensures 0 <= str < |buf| ==> o.Ok? && (b <==> buf[str] == LIST)
      ensures o.Ok? && b ==> 0 <= str < |buf|
    {
      if str == NULL {
        return Ok, false;
      }
      var c;
      o, c := Peek(buf, str);
      b := o.Ok? && c == LIST;
    }

    /** Digits and then a colon. */
    method IsString() returns (o: Outcome, b: bool)
      ensures o.Ok? ==> 0 <= str < |buf|
      ensures o.Fault? && 0 <= str < |buf| ==> IsDigit(buf[str]) && DigitsEnd(buf, str) == |buf|
      ensures o.Ok? && b <==>
                && 0 <= str < |buf| && IsDigit(buf[str])
                && DigitsEnd(buf, str) < |buf| && buf[DigitsEnd(buf, str)] == COLON
      ensures o.Ok? && 0 <= str < |buf| && !IsDigit(buf[str]) ==> !b
    {
      b := false;
      var sp := str;
      var c;
      o, c := Peek(buf, sp);
      if o.Fault? || !IsDigit(c) {
        return;
      }
      while IsDigit(c)
        invariant str <= sp < |buf| && o.Ok? && c == buf[sp]
        invariant DigitsEnd(buf, sp) == DigitsEnd(buf, str)
        decreases |buf| - sp
      {
        sp := sp + 1;
        o, c := Peek(buf, sp);
        if o.Fault? {
          return;
        }
      }
      b := c == COLON;
    }

    // ----- Values -----

    method CarryLength(pos: int) returns (o: Outcome, n: CInt)
      ensures o.Ok? <==> Carries(len, pos - str)
      ensures o.Ok? <==> 0 < len && -0x8000_0000 <= len - (pos - str) <= 0x7fff_ffff
      ensures o.Ok? ==> n == str + len - pos
    {
      if len <= 0 {
        return Fault, 0;
      }
      var r := len - (pos - str);
      if r < INT_MIN || INT_MAX < r {
        return Fault, 0;
      }
      return Ok, r;
    }

    method IntValue() returns (o: Outcome, ret: int, val: int)
      ensures o.Ok? && ret != 0 <==> SignedAt(buf, str + 1) && buf[SignedEnd(buf, str + 1)] == END
      ensures o.Ok? && ret != 0 ==> ret == 1 && val == SignedNumber(buf, str + 1)
      ensures forall v: Value | At(buf, str, Encode(v)) && Fits(v) && v.Int? ::
                o.Ok? && ret == 1 && val == v.n
    {
      hide SignedAt, SignedEnd, SignedNumber;
      forall v: Value | At(buf, str, Encode(v)) && Fits(v) && v.Int?
        ensures SignedAt(buf, str + 1) && buf[SignedEnd(buf, str + 1)] == END
        ensures SignedNumber(buf, str + 1) == v.n
      {
        IntRead(buf, str, v.n);
      }
      var end;
      o, ret, end, val := ReadStringInt(buf, str + 1);
      if o.Ok? && ret != 0 {
        if buf[end] != END {
          return Fault, 0, 0;
        }
        ret := 1;
      }
    }

    /** The text of a string value, unless it runs past the believed end. */
    method StringValue() returns (o: Outcome, ret: int, s: int, slen: int)
      ensures o.Ok? && ret != 0 <==>
                LengthAt(buf, str) && 0 < len && TextEnd(buf, str) <= start + len
      ensures o.Ok? && ret != 0 ==>
                ret == 1 && s == TextPos(buf, str) && slen == TextLength(buf, str)
    {
      ret, s, slen := 0, NULL, 0;
      var b;
      o, b := IsString();
      if o.Fault? {
        return;
      }
      if !b {
        return Fault, 0, NULL, 0;
      }
      var sp;
      o, sp, slen := ReadStringLen(buf, str);
      if o.Fault? {
        return;
      }
      if sp == NULL || len <= 0 {
        return Fault, 0, NULL, slen;
      }
      if sp + slen > start + len {
        return;
      }
      s, ret := sp, 1;
    }

    // ----- Dictionaries -----

    method DictHasNext() returns (o: Outcome, has: bool)
      ensures str == NULL ==> o.Ok? && !has
      ensures str != NULL ==> (o.Ok? <==> DictReadable(buf, str))
      ensures o.Ok? && str != NULL ==> (has <==> !DictStops(buf, start, len, str))
    {
      has := false;
      if str == NULL {
        return Ok, false;
      }
      var c;
      o, c := Peek(buf, str);
      if o.Fault? || c == END || c == 0 || c == 0x0d {
        return;
      }
      if c == DICT {
        var d;
        o, d := Peek(buf, str + 1);
        if o.Fault? || d == END {
          return;
        }
      }
      has := !(str >= start + len - 1);
    }

    /** Reads one pair: positions its key, gives a cursor on its value if one is wanted, and
        moves to the next pair. */
    method DictGetNext(wantItem: bool) returns (o: Outcome, ret: int, item: Cursor?, key: int, klen: int)
      modifies this`str
      ensures o.Ok? ==> ret == 0 || ret == 1
      ensures o.Ok? && ret == 1 <==>
                KeyAt(buf, len, old(str)) && ParseValueAt(buf, len, old(str)).ATree?
      ensures o.Ok? && ret == 1 ==>
                var k := KeyStart(buf, old(str));
                && str == ParseValueAt(buf, len, old(str)).next
                && key == TextPos(buf, k) && klen == TextLength(buf, k)
                && (wantItem ==>
                      && item != null && fresh(item) && item.buf == buf
                      && item.str == item.start == TextEnd(buf, k)
                      && item.len == len - (TextEnd(buf, k) - old(str)))
      ensures o.Ok? && ret == 0 ==>
                str == NULL ||
                (str == old(str) && DictReadable(buf, str) && DictStops(buf, start, len, str))
      decreases |buf| - str, 2
    {
      hide LengthAt, Parse;
      ret, item, key, klen := 0, null, NULL, 0;
      var keyin, n;
      o, keyin, n := DictKey();
      if o.Fault? || keyin == NULL {
        return;
      }
      if wantItem {
        klen := n;
        var carried;
        o, carried := CarryLength(keyin + n);
        if o.Fault? {
          return;
        }
        item := new Cursor(buf, keyin + n, carried);
      }
      var next;
      o, next := IterateToNextStringPos(keyin + n);
      if o.Fault? {
        return;
      }
      str := next;
      if str == NULL {
        return;
      }
      key, klen, ret := keyin, n, 1;
    }

    /** The first half of DictGetNext: the key's text, or NULL when the dict has ended. */
    method DictKey() returns (o: Outcome, keyin: int, n: int)
      ensures o.Ok? && keyin != NULL <==> 0 <= str < |buf| && LengthAt(buf, KeyStart(buf, str))
      ensures o.Ok? && keyin != NULL ==>
                keyin == TextPos(buf, KeyStart(buf, str)) && n == TextLength(buf, KeyStart(buf, str))
      ensures o.Ok? && keyin == NULL ==>
                0 <= str && str + 1 < |buf| && buf[str] == DICT && buf[str + 1] == END
    {
      keyin, n := NULL, 0;
      var sp := str;
      var c;
      o, c := Peek(buf, sp);
      if o.Fault? {
        return;
      }
      if c == END {
        o := Fault;
        return;
      }
      if c == DICT {
        sp := sp + 1;
      }
      o, c := Peek(buf, sp);
      if o.Fault? || c == END {
        return;
      }
      o, keyin, n := ReadStringLen(buf, sp);
      // The program uses a NULL here unchecked and ends in the assertion of bencode_is_string.
      if keyin == NULL {
        o := Fault;
      }
    }

    // ----- Lists -----

    /** Where the next item of a list is. */
    ghost function ItemPos(): int
      reads this
    {
      if 0 <= str < |buf| && buf[str] == LIST && start == str then str + 1 else str
    }

    method ListHasNext() returns (o: Outcome, has: bool)
      modifies this`str
      ensures o.Ok? <==> 0 <= old(str) && old(ItemPos()) < |buf|
      ensures o.Ok? ==> (has <==> buf[old(ItemPos())] != END)
      ensures str == if o.Ok? && !has then old(ItemPos()) else old(str)
    {
      has := false;
      var c;
      o, c := Peek(buf, str);
      if o.Fault? {
        return;
      }
      if c == LIST && str == start {
        var d;
        o, d := Peek(buf, str + 1);
        if o.Fault? {
          return;
        }
        if d == END {
          str := str + 1;
          return;
        }
      }
      has := c != END;
    }

    method ListGetNext(wantItem: bool) returns (o: Outcome, ret: int, item: Cursor?)
      modifies this`str
      ensures o.Ok? ==> -1 <= ret <= 1
      ensures o.Ok? && ret == -1 ==> str == NULL
      ensures o.Ok? && ret == 0 ==>
                old(str) == NULL || (0 <= old(ItemPos()) < |buf| && buf[old(ItemPos())] == END)
      ensures o.Ok? && ret == 1 <==>
                && 0 <= old(ItemPos()) < |buf| && buf[old(ItemPos())] != END
                && Carries(len, old(ItemPos() - str))
                && Parse(buf, old(ItemPos()), len - old(ItemPos() - str)).ATree?
      ensures o.Ok? && ret == 1 ==> str == Parse(buf, old(ItemPos()), len - old(ItemPos() - str)).next
      ensures o.Ok? && ret != 0 && wantItem ==>
                && item != null && fresh(item) && item.buf == buf
                && item.str == item.start == old(ItemPos()) && item.len == len - old(ItemPos() - str)
      decreases |buf| - ItemPos(), 5
    {
      hide Parse;
      ret, item := 0, null;
      var sp := str;
      if sp == NULL {
        return Ok, 0, null;
      }
      var c;
      o, c := Peek(buf, sp);
      if o.Fault? || c == END {
        return;
      }
      if c == LIST && start == str {
        sp := sp + 1;
        o, c := Peek(buf, sp);
        if o.Fault? {
          return;
        }
      }
      if c == END {
        str := sp;
        return;
      }
      if wantItem {
        var n;
        o, n := CarryLength(sp);
        if o.Fault? {
          return;
        }
        item := new Cursor(buf, sp, n);
      }
      var next;
      o, next := IterateToNextStringPos(sp);
      if o.Fault? {
        return;
      }
      str := next;
      ret := if str == NULL then -1 else 1;
    }

    // ----- Skipping -----

    lemma EncodingsSeen(sp: int)
      ensures forall v | Sees(sp, v) ::
                && Carries(len, sp - str)
                && Parse(buf, sp, len - (sp - str)) == ATree(TreeOf(v), sp + |Encode(v)|)
    {
      hide At, Encode, Fits, Parse, TreeOf;
      forall v | Sees(sp, v)
        ensures Carries(len, sp - str)
        ensures Parse(buf, sp, len - (sp - str)) == ATree(TreeOf(v), sp + |Encode(v)|)
      {
        EncodingRead(buf, sp, len - (sp - str), v);
      }
    }

    /** The position just after what is read at `sp`, or NULL; for a value in view, the position
        just after its encoding. */
    method IterateToNextStringPos(sp: int) returns (o: Outcome, next: int)
      ensures o.Ok? && next != NULL <==>
                Carries(len, sp - str) && Parse(buf, sp, len - (sp - str)).ATree?
      ensures o.Ok? && next != NULL ==> next == Parse(buf, sp, len - (sp - str)).next
      ensures forall v | Sees(sp, v) :: o.Ok? && next == sp + |Encode(v)|
      decreases |buf| - sp, 4
    {
      hide At, Encode, Fits, NumberAt, LengthAt, SignedAt, SignedEnd, TextEnd, TextPos, Parse;
      EncodingsSeen(sp);
      next := NULL;
      var n;
      o, n := CarryLength(sp);
      if o.Fault? {
        return;
      }
      var iter := new Cursor(buf, sp, n);
      var b;
      o, b := iter.IsDict();
      if o.Fault? {
        return;
      }
      if b {
        o, next := iter.SkipDict();
        return;
      }
      o, b := iter.IsList();
      if o.Fault? {
        return;
      }
      if b {
        o, next := iter.SkipList();
        return;
      }
      if 0 <= sp < |buf| {
        ParseScalar(buf, sp, n);
      }
      o, b := iter.IsString();
      if o.Fault? {
        return;
      }
      if b {
        var ret, str, len;
        o, ret, str, len := iter.StringValue();
        if o.Ok? && ret != 0 {
          next := str + len;
        }
        return;
      }
      o, b := iter.IsInt();
      if o.Fault? || !b {
        return;
      }
      o, next := iter.SkipInt();
    }

    /** The integer branch of the skip. */
    method SkipInt() returns (o: Outcome, next: int)
      ensures o.Ok? && next != NULL <==> SignedAt(buf, str + 1) && buf[SignedEnd(buf, str + 1)] == END
      ensures o.Ok? && next != NULL ==> next == SignedEnd(buf, str + 1) + 1
    {
      hide NumberAt;
      next := NULL;
      var ret, end, val;
      o, ret, end, val := ReadStringInt(buf, str + 1);
      if o.Ok? && ret != 0 {
        if buf[end] != END {
          o := Fault;
          return;
        }
        next := end + 1;
      }
    }

    /** The dict branch of the skip: run to the last pair, then step over the terminator. */
    method SkipDict() returns (o: Outcome, next: int)
      requires 0 <= str == start < |buf| && buf[str] == DICT
      modifies this`str
      ensures o.Ok? && next != NULL <==> Parse(buf, old(str), len).ATree?
      ensures o.Ok? && next != NULL ==> next == Parse(buf, old(str), len).next
      decreases |buf| - str, 3
    {
      hide ParsePairs, ParseItems, KeyAt, ParseValueAt, LengthAt, SignedAt;
      next := NULL;
      var has;
      o, has := DictHasNext();
      while o.Ok? && has
        invariant old(str) <= str
        invariant o.Ok? <==> DictReadable(buf, str)
        invariant o.Ok? ==> (has <==> !DictStops(buf, start, len, str))
        invariant SameEnd(buf, start, len, start, str)
        decreases |buf| - str
      {
        PairsGoOn(buf, start, len, str);
        var ret, item, key, klen;
        o, ret, item, key, klen := DictGetNext(false);
        if o.Fault? {
          return;
        }
        if ret == 0 {
          return;
        }
        o, has := DictHasNext();
      }
      PairsStop(buf, start, len, str);
      if o.Fault? {
        return;
      }
      var c;
      o, c := Peek(buf, str);
      if o.Fault? {
        return;
      }
      if c == DICT {
        o, c := Peek(buf, str + 1);
        if o.Fault? {
          return;
        }
        if c == END {
          next := str + 2;
          return;
        }
      }
      next := str + 1;
    }

    method SkipList() returns (o: Outcome, next: int)
      requires 0 <= str == start < |buf| && buf[str] == LIST
      modifies this`str
      ensures o.Ok? && next != NULL <==> Parse(buf, old(str), len).ATree?
      ensures o.Ok? && next != NULL ==> next == Parse(buf, old(str), len).next
      decreases |buf| - str, 3
    {
      hide ParsePairs, ParseItems, LengthAt, SignedAt;
      next := NULL;
      var has;
      o, has := ListHasNext();
      if o.Ok? && !has {
        ItemsStop(buf, len, start, start + 1);
        ItemsStop(buf, len, str, ItemPos());
      }
      while o.Ok? && has
        invariant old(str) <= str
        invariant o.Ok? ==> 0 <= ItemPos() < |buf| && (has <==> buf[ItemPos()] != END)
        invariant o.Fault? ==> ItemPos() >= |buf|
        invariant SameLast(buf, len, start, start + 1, str, ItemPos())
        decreases |buf| - str
      {
        ItemsGoOn(buf, len, str, ItemPos());
        var ret, item;
        o, ret, item := ListGetNext(false);
        if o.Fault? {
          return;
        }
        if ret == -1 {
          return;
        }
        o, has := ListHasNext();
      }
      ItemsStop(buf, len, str, ItemPos());
      if o.Fault? {
        return;
      }
      next := str + 1;
    }

    // ----- Validation -----

    /** 0 for what can be read as a tree, -1 or a fault for everything else. */
    method Validate() returns (o: Outcome, ret: int)
      requires str == start
      modifies this`str
      ensures o.Ok? && ret == 0 <==> Parse(buf, old(str), len).ATree?
      ensures o.Ok? ==> ret == 0 || ret == -1
      decreases |buf| - str
    {
      hide NumberAt, LengthAt, SignedAt, SignedEnd, TextEnd, TextPos, Parse;
      ret := -1;
      var b;
      o, b := IsDict();
      if o.Fault? {
        return;
      }
      if b {
        o, ret := ValidateDict();
        return;
      }
      o, b := IsList();
      if o.Fault? {
        return;
      }
      if b {
        o, ret := ValidateList();
        return;
      }
      if 0 <= str < |buf| {
        ParseScalar(buf, str, len);
      }
      o, b := IsString();
      if o.Fault? {
        return;
      }
      if b {
        var done, s, n;
        o, done, s, n := StringValue();
        ret := if done == 0 then -1 else 0;
        return;
      }
      o, b := IsInt();
      if o.Fault? || !b {
        return;
      }
      var done, val;
      o, done, val := IntValue();
      ret := if done == 0 then -1 else 0;
    }

    method ValidateDict() returns (o: Outcome, ret: int)
      requires 0 <= str == start < |buf| && buf[str] == DICT
      modifies this`str
      ensures o.Ok? && ret == 0 <==> Parse(buf, old(str), len).ATree?
      ensures o.Ok? ==> ret == 0 || ret == -1
      decreases |buf| - str, 0
    {
      hide ParsePairs, ParseItems, KeyAt, ParseValueAt, LengthAt, SignedAt;
      ret := -1;
      var has;
      o, has := DictHasNext();
      while o.Ok? && has
        invariant old(str) <= str
        invariant o.Ok? <==> DictReadable(buf, str)
        invariant o.Ok? ==> (has <==> !DictStops(buf, start, len, str))
        invariant SameEnd(buf, start, len, start, str)
        invariant ret == -1
        decreases |buf| - str
      {
        PairsGoOn(buf, start, len, str);
        ghost var q := str;
        var done, item, key, klen;
        o, done, item, key, klen := DictGetNext(true);
        if o.Fault? || done == 0 {
          return;
        }
        ValueParse(buf, len, q);
        var child;
        o, child := item.Validate();
        if o.Fault? {
          return;
        }
        if child != 0 {
          return o, child;
        }
        o, has := DictHasNext();
      }
      PairsStop(buf, start, len, str);
      ret := 0;
    }

    method ValidateList() returns (o: Outcome, ret: int)
      requires 0 <= str == start < |buf| && buf[str] == LIST
      modifies this`str
      ensures o.Ok? && ret == 0 <==> Parse(buf, old(str), len).ATree?
      ensures o.Ok? ==> ret == 0 || ret == -1
      decreases |buf| - str, 0
    {
      hide ParsePairs, ParseItems, LengthAt, SignedAt;
      ret := -1;
      var has;
      o, has := ListHasNext();
      if o.Ok? && !has {
        ItemsStop(buf, len, start, start + 1);
        ItemsStop(buf, len, str, ItemPos());
      }
      while o.Ok? && has
        invariant old(str) <= str
        invariant o.Ok? ==> 0 <= ItemPos() < |buf| && (has <==> buf[ItemPos()] != END)
        invariant o.Fault? ==> ItemPos() >= |buf|
        invariant SameLast(buf, len, start, start + 1, str, ItemPos())
        invariant ret == -1
        decreases |buf| - str
      {
        ItemsGoOn(buf, len, str, ItemPos());
        var done, item;
        o, done, item := ListGetNext(true);
        if o.Fault? || done == -1 {
          return;
        }
        var child;
        o, child := item.Validate();
        if o.Fault? {
          return;
        }
        if child != 0 {
          return o, child;
        }
        o, has := ListHasNext();
      }
      ItemsStop(buf, len, str, ItemPos());
      ret := 0;
    }

    // ----- Extent of a dictionary -----

    /** The slice of the pairs that are left, up to and including the byte they stop at. */
    method DictGetStartAndLen() returns (o: Outcome, s: int, length: int)
      ensures o.Ok? <==> ParsePairs(buf, start, len, str).ThePairs?
      ensures o.Ok? ==> s == str && length == ParsePairs(buf, start, len, str).last - str + 1
      ensures forall v: Value | Covers(v) && v.Dict? ::
                o.Ok? && s == str && length == if v.pairs == [] then 1 else |Encode(v)|
    {
      hide ParsePairs, KeyAt, ParseValueAt, LengthAt, At, Encode, Fits;
      DictsCovered();
      var ben := new Cursor.Clone(this);
      s, length := ben.str, 0;
      var has;
      o, has := ben.DictHasNext();
      while o.Ok? && has
        invariant ben.buf == buf && ben.start == start && ben.len == len
        invariant ben.str != NULL ==> (o.Ok? <==> DictReadable(buf, ben.str))
        invariant ben.str == NULL ==> o.Ok? && !has
        invariant o.Ok? && ben.str != NULL ==> (has <==> !DictStops(buf, start, len, ben.str))
        invariant SameEnd(buf, start, len, str, ben.str)
        decreases if ben.str == NULL then 0 else |buf| - ben.str + 1
      {
        PairsGoOn(buf, start, len, ben.str);
        var ret, item, key, klen;
        o, ret, item, key, klen := ben.DictGetNext(true);
        if o.Fault? {
          return;
        }
        PairsStop(buf, start, len, NULL);
        o, has := ben.DictHasNext();
      }
      PairsStop(buf, start, len, ben.str);
      if o.Ok? && ben.str == NULL {
        o := Fault;
      }
      length := ben.str - s + 1;
    }

    lemma DictsCovered()
      ensures forall v: Value | Covers(v) && v.Dict? ::
                && ParsePairs(buf, start, len, str).ThePairs?
                && ParsePairs(buf, start, len, str).last - str + 1 ==
                   if v.pairs == [] then 1 else |Encode(v)|
    {
      hide At, Encode, Fits, Parse, ParsePairs;
      forall v: Value | Covers(v) && v.Dict?
        ensures ParsePairs(buf, start, len, str).ThePairs?
        ensures ParsePairs(buf, start, len, str).last - str + 1 ==
                if v.pairs == [] then 1 else |Encode(v)|
      {
        EncodedDict(buf, str, len, v);
      }
    }
  }

  /** bencode_validate: accepts what can be read as a tree, and length 0. */
  method Validate(buf: seq<Byte>, len: CInt) returns (o: Outcome, ret: int)
    ensures o.Ok? && ret == 0 <==> len == 0 || Parse(buf, 0, len).ATree?
    ensures o.Ok? ==> ret == 0 || ret == -1
    ensures 0 < len <= |buf| ==>
              ((o.Ok? && ret == 0) <==> exists t :: Stands(buf, 0, len, t))
    ensures forall v: Value | At(buf, 0, Encode(v)) && Fits(v) && |Encode(v)| <= len ::
              o.Ok? && ret == 0
  {
    hide Parse, Stands, At, Encode, Fits;
    if 0 < len <= |buf| {
      AcceptedIffStands(buf, len);
    }
    forall v: Value | At(buf, 0, Encode(v)) && Fits(v) && |Encode(v)| <= len
      ensures Parse(buf, 0, len).ATree?
    {
      EncodingRead(buf, 0, len, v);
    }
    if len == 0 {
      return Ok, 0;
    }
    var ben := new Cursor(buf, 0, len);
    o, ret := ben.Validate();
  }

  /** Every value passes validation, in a buffer that ends with its last byte: no read leaves
      the encoding. */
  method ValidateEncoding(v: Value) returns (o: Outcome, ret: int)
    requires Fits(v) && |Encode(v)| <= INT_MAX
    ensures o.Ok? && ret == 0
  {
    hide Parse, Stands, Encode, Fits;
    o, ret := Validate(Encode(v), |Encode(v)|);
  }

  // ---------- Methods and the reading functions ----------

  /** How a text that is no dict and no list is read. */
  lemma ParseScalar(buf: seq<Byte>, p: int, len: int)
    requires 0 <= p < |buf| && buf[p] != DICT && buf[p] != LIST
    ensures LengthAt(buf, p) ==>
              && IsDigit(buf[p]) && DigitsEnd(buf, p) < |buf| && buf[DigitsEnd(buf, p)] == COLON
              && TextEnd(buf, p) == TextPos(buf, p) + TextLength(buf, p)
    ensures IsDigit(buf[p]) ==> !SignedAt(buf, p + 1) || buf[p] != INT
    ensures Parse(buf, p, len).ATree? <==>
            || (LengthAt(buf, p) && 0 < len && TextEnd(buf, p) <= p + len)
            || (buf[p] == INT && SignedAt(buf, p + 1) && buf[SignedEnd(buf, p + 1)] == END)
    ensures Parse(buf, p, len).ATree? ==>
              Parse(buf, p, len).next ==
              if LengthAt(buf, p) then TextEnd(buf, p) else SignedEnd(buf, p + 1) + 1
  {
  }

  /** Reading the pairs from `q` on comes to the same end as reading them from `p` on. */
  predicate SameEnd(buf: seq<Byte>, start: int, len: int, p: int, q: int) {
    var a, b := ParsePairs(buf, start, len, p), ParsePairs(buf, start, len, q);
    (a.ThePairs? <==> b.ThePairs?) && (a.ThePairs? ==> a.last == b.last)
  }

  /** One turn of a loop over pairs. */
  lemma PairsGoOn(buf: seq<Byte>, start: int, len: int, q: int)
    requires DictReadable(buf, q) && !DictStops(buf, start, len, q)
    ensures if KeyAt(buf, len, q) && ParseValueAt(buf, len, q).ATree? then
              SameEnd(buf, start, len, q, ParseValueAt(buf, len, q).next)
            else ParsePairs(buf, start, len, q).NotPairs?
  {
  }

  lemma PairsStop(buf: seq<Byte>, start: int, len: int, q: int)
    requires DictReadable(buf, q) ==> DictStops(buf, start, len, q)
    ensures ParsePairs(buf, start, len, q) == if DictReadable(buf, q) then ThePairs([], q) else NotPairs
  {
  }

  predicate SameLast(buf: seq<Byte>, len: int, p: int, pos: int, q: int, at: int) {
    var a, b := ParseItems(buf, len, p, pos), ParseItems(buf, len, q, at);
    (a.TheItems? <==> b.TheItems?) && (a.TheItems? ==> a.last == b.last)
  }

  lemma ItemsGoOn(buf: seq<Byte>, len: int, q: int, p: int)
    requires 0 <= p < |buf| && buf[p] != END
    ensures if Carries(len, p - q) && Parse(buf, p, len - (p - q)).ATree? then
              var next := Parse(buf, p, len - (p - q)).next;
              SameLast(buf, len, q, p, next, next)
            else ParseItems(buf, len, q, p).NotItems?
  {
  }

  lemma ItemsStop(buf: seq<Byte>, len: int, q: int, p: int)
    requires 0 <= p < |buf| ==> buf[p] == END
    ensures ParseItems(buf, len, q, p) == if 0 <= p < |buf| then TheItems([], p) else NotItems
  {
  }

  /** So a dict cut off after its first byte passes, and is no value. */
  method TruncatedDictPasses() returns (o: Outcome, ret: int)
    ensures o.Ok? && ret == 0
    ensures Stands([DICT, 0], 0, 1, DictTree([], [])) && !Strict(DictTree([], []))
    ensures !exists v :: Fits(v) && At([DICT, 0], 0, Encode(v)) && |Encode(v)| <= 1
  {
    hide Encode, Fits;
    var t := DictTree([], []);
    assert Stands([DICT, 0], 0, 1, t);
    o, ret := Validate([DICT, 0], 1);
  }

  lemma ValueParse(buf: seq<Byte>, len: int, q: int)
    requires KeyAt(buf, len, q)
    ensures LengthAt(buf, KeyStart(buf, q))
    ensures var p := TextEnd(buf, KeyStart(buf, q));
            ParseValueAt(buf, len, q) == Parse(buf, p, len - (p - q))
  {
  }

  /** The pairs of an encoded dict, and where they stop: at its 'e', or on the 'd' itself if
      there are none. */
  lemma EncodedDict(buf: seq<Byte>, p: int, len: int, v: Value)
    requires At(buf, p, Encode(v)) && Fits(v) && |Encode(v)| <= len <= INT_MAX && v.Dict?
    ensures var r := ParsePairs(buf, p, len, p);
            && r.ThePairs? && r.pairs == PairTrees(v.pairs)
            && r.last == if v.pairs == [] then p else p + |Encode(v)| - 1
  {
    hide At, Encode, Fits, ParsePairs;
    EncodingRead(buf, p, len, v);
    FirstByte(buf, p, v);
    PairTreesSplit(v.pairs);
  }

  /** With an honest length, what validation accepts are the texts at whose start a tree stands. */
  lemma AcceptedIffStands(buf: seq<Byte>, len: int)
    requires 0 < len <= |buf|
    ensures Parse(buf, 0, len).ATree? <==> exists t :: Stands(buf, 0, len, t)
  {
    hide Parse, Stands;
    var r := Parse(buf, 0, len);
    if r.ATree? {
      HonestEnd(buf, 0, len);
      ParsedStands(buf, 0, len);
    }
    if t :| Stands(buf, 0, len, t) {
      StandingParsed(buf, 0, len, t);
    }
  }

  lemma HonestEnd(buf: seq<Byte>, p: int, len: int)
    requires p + len <= |buf| && Parse(buf, p, len).ATree?
    ensures Parse(buf, p, len).next <= |buf|
  {
  }

  /** What passes validation with an honest length is an encoded value if and only if it is
      read strictly and inside the length. */
  lemma AcceptedIsValueIff(buf: seq<Byte>, len: int)
    requires 0 < len <= |buf| && len <= INT_MAX
    ensures (exists v :: Fits(v) && At(buf, 0, Encode(v)) && |Encode(v)| <= len) <==>
            exists t :: Stands(buf, 0, len, t) && Strict(t) && |Text(t)| <= len
  {
    hide Parse, Stands, At, Encode, Fits, Strict, Text;
    ValueIffStrict(buf, 0, len);
    var r := Parse(buf, 0, len);
    if r.ATree? && Strict(r.tree) && r.next <= len {
      ParsedStands(buf, 0, len);
    }
    if t :| Stands(buf, 0, len, t) && Strict(t) && |Text(t)| <= len {
      StandingParsed(buf, 0, len, t);
    }
  }
}
