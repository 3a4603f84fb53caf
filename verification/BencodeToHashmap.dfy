/** Turning a bencoded dictionary into a tree of hash maps and lists. The results are stated for
    every text the reader accepts; the encoding of a value is one of them. */
module BencodeToHashmap {
  import opened Bytes
  import opened BencodeFormat
  import opened BencodeTree
  import opened BencodeCursor
  import opened Hashmaps
  import opened Linkedlists

  /** What a hash map or list stores for a value. */
  datatype Item =
    | IntItem(n: int)
    | StrItem(s: seq<Byte>)
    | DictItem(m: Hashmap<Item>)
    | ListItem(l: Linkedlist<Item>)

  /** The bindings a dict asks for, in order; a key is cut at its first NUL. */
  function Bindings(pairs: seq<Pair>): (log: seq<(CString, Value)>)
    ensures |log| == |pairs|
    ensures forall i | 0 <= i < |pairs| :: log[i] == (CStr(pairs[i].key), pairs[i].value)
  {
    seq(|pairs|, i requires 0 <= i < |pairs| => (CStr(pairs[i].key), pairs[i].value))
  }

  // ---------- What it means for a heap structure to represent a value ----------

  /** `x` represents `v`, using only objects of `heap`. Of a dict's pairs, those are there that a
      map has room for. */
  ghost predicate Holds(x: Item, v: Value, heap: set<object>)
    reads heap
    decreases v, 0
  {
    match v
    case Int(n) => x == IntItem(n)
    case Str(s) => x == StrItem(s)
    case Dict(pairs) =>
      && x.DictItem? && x.m in heap && x.m.Repr <= heap && x.m.Valid()
      && |x.m.Log| == StoredCount(Bindings(pairs))
      && HoldsPairs(x.m.Log, pairs, heap)
    case List(items) =>
      && x.ListItem? && x.l in heap && x.l.Repr <= heap && x.l.Valid()
      && HoldsItems(x.l.Contents, items, heap)
  }

  /** The log's bindings are those of the first pairs, in order. */
  ghost predicate HoldsPairs(log: seq<(CString, Item)>, pairs: seq<Pair>, heap: set<object>)
    reads heap
    decreases pairs, 1, |log|
  {
    log == [] ||
    var n := |log| - 1;
    && n < |pairs|
    && log[n].0 == CStr(pairs[n].key)
    && Holds(log[n].1, pairs[n].value, heap)
    && HoldsPairs(log[..n], pairs, heap)
  }

  predicate Kept(v: Value) {
    v.Str? || v.Dict?
  }

  /** The string and dict elements in order; the other elements are dropped. */
  ghost predicate HoldsItems(contents: seq<Item>, items: seq<Value>, heap: set<object>)
    reads heap
    decreases items, 1
  {
    if items == [] then contents == []
    else
      var n := |items| - 1;
      if Kept(items[n]) then
        && contents != []
        && Holds(contents[|contents| - 1], items[n], heap)
        && HoldsItems(contents[..|contents| - 1], items[..n], heap)
      else
        HoldsItems(contents, items[..n], heap)
  }

  /** Of an integer, a string, a list and a dict, a list keeps the string and the dict. */
  lemma KeptOfEach(contents: seq<Item>, n: int, s: seq<Byte>, items: seq<Value>, pairs: seq<Pair>,
                   heap: set<object>)
    ensures HoldsItems(contents, [Int(n), Str(s), List(items), Dict(pairs)], heap) ==>
              && |contents| == 2
              && contents[0] == StrItem(s)
              && contents[1].DictItem? && Holds(contents[1], Dict(pairs), heap)
  {
    hide Holds, HoldsItems;
    var all := [Int(n), Str(s), List(items), Dict(pairs)];
    var three, two, one := [Int(n), Str(s), List(items)], [Int(n), Str(s)], [Int(n)];
    assert all[..3] == three && three[..2] == two && two[..1] == one && one[..0] == [];
    if HoldsItems(contents, all, heap) {
      LastItem(contents, all, heap);
      var rest := contents[..|contents| - 1];
      LastItem(rest, three, heap);
      LastItem(rest, two, heap);
      LastItem(rest[..|rest| - 1], one, heap);
      NoItems(rest[..|rest| - 1], heap);
      HoldsStr(rest[|rest| - 1], s, heap);
      HoldsDictItem(contents[|contents| - 1], pairs, heap);
    }
  }

  lemma LastItem(contents: seq<Item>, items: seq<Value>, heap: set<object>)
    requires items != [] && HoldsItems(contents, items, heap)
    ensures var n := |items| - 1;
            if items[n].Str? || items[n].Dict? then
              && contents != [] && Holds(contents[|contents| - 1], items[n], heap)
              && HoldsItems(contents[..|contents| - 1], items[..n], heap)
            else HoldsItems(contents, items[..n], heap)
  {
    hide Holds;
  }

  lemma NoItems(contents: seq<Item>, heap: set<object>)
    requires HoldsItems(contents, [], heap)
    ensures contents == []
  {
  }

  lemma HoldsStr(x: Item, s: seq<Byte>, heap: set<object>)
    ensures Holds(x, Str(s), heap) <==> x == StrItem(s)
  {
  }

  lemma HoldsDictItem(x: Item, pairs: seq<Pair>, heap: set<object>)
    ensures Holds(x, Dict(pairs), heap) ==> x.DictItem?
  {
  }

  lemma {:induction false} HoldsMore(x: Item, v: Value, heap: set<object>, more: set<object>)
    requires Holds(x, v, heap) && heap <= more
    ensures Holds(x, v, more)
    decreases v, 0
  {
    match v
    case Int(_) =>
    case Str(_) =>
    case Dict(pairs) => HoldsPairsMore(x.m.Log, pairs, heap, more);
    case List(items) => HoldsItemsMore(x.l.Contents, items, heap, more);
  }

  lemma {:induction false} HoldsPairsMore(log: seq<(CString, Item)>, pairs: seq<Pair>,
                                          heap: set<object>, more: set<object>)
    requires HoldsPairs(log, pairs, heap) && heap <= more
    ensures HoldsPairs(log, pairs, more)
    decreases pairs, 1, |log|
  {
    if log != [] {
      var n := |log| - 1;
      HoldsMore(log[n].1, pairs[n].value, heap, more);
      HoldsPairsMore(log[..n], pairs, heap, more);
    }
  }

  lemma {:induction false} HoldsItemsMore(contents: seq<Item>, items: seq<Value>,
                                          heap: set<object>, more: set<object>)
    requires HoldsItems(contents, items, heap) && heap <= more
    ensures HoldsItems(contents, items, more)
    decreases items, 1
  {
    if items != [] {
      var n := |items| - 1;
      if Kept(items[n]) {
        HoldsMore(contents[|contents| - 1], items[n], heap, more);
        HoldsItemsMore(contents[..|contents| - 1], items[..n], heap, more);
      } else {
        HoldsItemsMore(contents, items[..n], heap, more);
      }
    }
  }

  /** The value of the first pair whose key, cut at a NUL, is `key`. */
  function FirstValue(pairs: seq<Pair>, key: CString): Option<Value> {
    if pairs == [] then None
    else if CStr(pairs[0].key) == key then Some(pairs[0].value)
    else FirstValue(pairs[1..], key)
  }

  lemma {:induction false} FirstValueSnoc(pairs: seq<Pair>, p: Pair, key: CString)
    ensures FirstValue(pairs + [p], key) ==
            if FirstValue(pairs, key).Some? then FirstValue(pairs, key)
            else if CStr(p.key) == key then Some(p.value) else None
  {
    if pairs == [] {
    } else {
      assert (pairs + [p])[1..] == pairs[1..] + [p];
      FirstValueSnoc(pairs[1..], p, key);
    }
  }

  lemma {:induction false} HoldsSameKeys(log: seq<(CString, Item)>, pairs: seq<Pair>, heap: set<object>)
    requires HoldsPairs(log, pairs, heap)
    ensures |log| <= |pairs|
    ensures forall k | 0 <= k < |log| :: log[k].0 == Bindings(pairs)[..|log|][k].0
    decreases |log|
  {
    hide Holds, Bindings;
    if log != [] {
      HoldsSameKeys(log[..|log| - 1], pairs, heap);
    }
  }

  /** A key looked up in the resulting map gives a representation of its first value among the
      pairs stored, and nothing when none of them has the key. */
  lemma {:induction false} LookupFindsFirst(log: seq<(CString, Item)>, pairs: seq<Pair>,
                                            heap: set<object>, key: CString)
    requires HoldsPairs(log, pairs, heap) && |log| <= |pairs|
    ensures Lookup(log, key).None? <==> FirstValue(pairs[..|log|], key).None?
    ensures Lookup(log, key).Some? ==>
              Holds(Lookup(log, key).value, FirstValue(pairs[..|log|], key).value, heap)
    decreases |log|
  {
    hide Holds;
    if log != [] {
      var n := |log| - 1;
      LookupFindsFirst(log[..n], pairs, heap, key);
      assert log == log[..n] + [log[n]] && pairs[..n + 1] == pairs[..n] + [pairs[n]];
      LookupConcat(log[..n], [log[n]], key);
      FirstValueSnoc(pairs[..n], pairs[n], key);
    }
  }

  lemma HoldsPairsSnoc(log: seq<(CString, Item)>, pairs: seq<Pair>, heap: set<object>,
                       x: Item, more: set<object>)
    requires HoldsPairs(log, pairs, heap) && |log| < |pairs|
    requires Holds(x, pairs[|log|].value, more)
    ensures HoldsPairs(log + [(CStr(pairs[|log|].key), x)], pairs, heap + more)
  {
    hide Holds, CStr;
    HoldsPairsMore(log, pairs, heap, heap + more);
    HoldsMore(x, pairs[|log|].value, more, heap + more);
    assert (log + [(CStr(pairs[|log|].key), x)])[..|log|] == log;
  }

  lemma HoldsItemsSnoc(contents: seq<Item>, items: seq<Value>, heap: set<object>,
                       v: Value, x: Item, more: set<object>)
    requires HoldsItems(contents, items, heap)
    requires Kept(v) ==> Holds(x, v, more)
    ensures HoldsItems(if Kept(v) then contents + [x] else contents, items + [v], heap + more)
  {
    HoldsItemsMore(contents, items, heap, heap + more);
    assert (items + [v])[..|items|] == items;
    if Kept(v) {
      HoldsMore(x, v, more, heap + more);
      assert (contents + [x])[..|contents|] == contents;
    }
  }

  // ---------- What a cursor stands on ----------

  /** What a fresh cursor reads, all of it in the buffer. */
  ghost predicate Reads(be: Cursor, t: Tree)
    reads be
  {
    && be.str == be.start
    && var r := Parse(be.buf, be.str, be.len); r.ATree? && r.tree == t && r.next <= |be.buf|
  }

  lemma {:induction false} PairValuesAt(pairs: seq<TreePair>, k: nat)
    ensures |PairValues(pairs)| == |pairs|
    ensures k < |pairs| ==> PairValues(pairs)[k] == Pair(pairs[k].key, ValueOf(pairs[k].value))
  {
    if pairs != [] {
      PairValuesAt(pairs[1..], if k > 0 then k - 1 else 0);
    }
  }

  lemma {:induction false} ItemValuesAt(items: seq<Tree>, k: nat)
    ensures |ItemValues(items)| == |items|
    ensures k < |items| ==> ItemValues(items)[k] == ValueOf(items[k])
  {
    if items != [] {
      ItemValuesAt(items[1..], if k > 0 then k - 1 else 0);
    }
  }

  /** memcpy out of the buffer */
  method Copy(buf: seq<Byte>, p: int, n: int) returns (o: Outcome, s: seq<Byte>)
    ensures o.Ok? <==> 0 <= p && 0 <= n && p + n <= |buf|
    ensures o.Ok? ==> s == buf[p..p + n]
  {
    if p < 0 || n < 0 || p + n > |buf| {
      return Fault, [];
    }
    s := buf[p..p + n];
    o := Ok;
  }

  // ---------- The conversion of a dict ----------

  /** The cursor stands before pair `k`, and the map holds those before it that it has room for. */
  ghost predicate Filling(be: Cursor, hashmap: Hashmap<Item>, pairs: seq<TreePair>, k: nat, heap: set<object>)
    reads be, hashmap, heap
  {
    && k <= |pairs|
    && (var r := ParsePairs(be.buf, be.start, be.len, be.str); r.ThePairs? && r.pairs == pairs[k..])
    && HoldsPairs(hashmap.Log, PairValues(pairs), heap)
    && |hashmap.Log| == StoredUpTo(pairs, k)
  }

  ghost function StoredUpTo(pairs: seq<TreePair>, k: nat): nat {
    var log := Bindings(PairValues(pairs));
    StoredCount(if k <= |log| then log[..k] else log)
  }

  lemma StoredUpToEnds(pairs: seq<TreePair>)
    ensures StoredUpTo(pairs, 0) == 0
    ensures StoredUpTo(pairs, |pairs|) == StoredCount(Bindings(PairValues(pairs)))
  {
    hide StoredCount, PairValues;
    PairValuesAt(pairs, 0);
    StoredNone();
    var log := Bindings(PairValues(pairs));
    assert log[..|pairs|] == log && log[..0] == [];
  }

  lemma StoredNone()
    ensures StoredCount<Value>([]) == 0
  {
  }

  lemma FillingStarts(be: Cursor, hashmap: Hashmap<Item>, t: Tree)
    requires Reads(be, t) && t.DictTree? && hashmap.Log == []
    ensures 0 <= be.str < |be.buf| && be.buf[be.str] == DICT
    ensures Filling(be, hashmap, t.pairs, 0, {})
  {
    hide ParsePairs, ParseItems, Bindings, StoredCount;
    StoredUpToEnds(t.pairs);
    assert t.pairs[0..] == t.pairs;
  }

  /** What the dict cursor finds before pair `k`. */
  lemma FillingNext(be: Cursor, hashmap: Hashmap<Item>, pairs: seq<TreePair>, k: nat, heap: set<object>)
    requires Filling(be, hashmap, pairs, k, heap)
    ensures DictReadable(be.buf, be.str)
    ensures DictStops(be.buf, be.start, be.len, be.str) <==> k == |pairs|
    ensures k < |pairs| ==>
              && KeyAt(be.buf, be.len, be.str) && LengthAt(be.buf, KeyStart(be.buf, be.str))
              && var r := ParseValueAt(be.buf, be.len, be.str);
                 && r.ATree? && r.next <= |be.buf| && r.tree == pairs[k].value
                 && (var q := KeyStart(be.buf, be.str);
                     pairs[k].key == be.buf[TextPos(be.buf, q)..TextEnd(be.buf, q)])
                 && var rest := ParsePairs(be.buf, be.start, be.len, r.next);
                    rest.ThePairs? && rest.pairs == pairs[k + 1..]
  {
    hide HoldsPairs, Bindings, StoredCount, Parse, LengthAt;
    var r := ParsePairs(be.buf, be.start, be.len, be.str);
    if k < |pairs| {
      assert pairs[k..][0] == pairs[k] && pairs[k..][1..] == pairs[k + 1..];
      assert r.pairs != [];
    }
  }

  /** One more pair: it is stored exactly if all before it were and left a slot free. */
  lemma StoredOneMore(pairs: seq<TreePair>, k: nat, log: seq<(CString, Item)>, heap: set<object>)
    requires k < |pairs| && HoldsPairs(log, PairValues(pairs), heap) && |log| == StoredUpTo(pairs, k)
    ensures |log| <= k
    ensures StoredUpTo(pairs, k + 1) == if SlotsUsed(log, SLOTS) < SLOTS then k + 1 else |log|
    ensures SlotsUsed(log, SLOTS) < SLOTS ==> |log| == k
  {
    hide Holds, HoldsPairs, StoredCount, SlotsUsed;
    PairValuesAt(pairs, k);
    var all := Bindings(PairValues(pairs));
    var front := all[..k];
    assert all[..k + 1] == front + [all[k]];
    StoredNext(front, all[k]);
    RefusedWhenFull(front);
    HoldsSameKeys(log, PairValues(pairs), heap);
    SlotsUsedSameKeys(log, all[..|log|], SLOTS);
    CountAtMost(front);
    assert front[..|log|] == all[..|log|];
  }

  lemma CountAtMost(log: seq<(CString, Value)>)
    ensures StoredCount(log) <= |log|
  {
  }

  method ToHashmap(be: Cursor, ghost t: Tree)
      returns (o: Outcome, hashmap: Hashmap<Item>, ghost heap: set<object>)
    requires be.str == be.start
    modifies be`str
    ensures hashmap.Valid() && fresh(hashmap.Repr) && fresh(heap) && hashmap.Repr !! heap
    ensures old(Reads(be, t)) && t.DictTree? ==>
              && o.Ok? && |hashmap.Log| == StoredCount(Bindings(PairValues(t.pairs)))
              && HoldsPairs(hashmap.Log, PairValues(t.pairs), heap)
    decreases |be.buf| - be.str, 3
  {
    hide Reads, Parse, ParsePairs, ParseValueAt, LengthAt, KeyAt, Holds, HoldsPairs, Filling,
         StoredUpTo, StoredCount, Bindings, PairValues;
    ghost var wf := Reads(be, t) && t.DictTree?;
    ghost var pairs, k := if t.DictTree? then t.pairs else [], 0;
    hashmap := new Hashmap<Item>();
    heap := {};
    if wf {
      FillingStarts(be, hashmap, t);
      FillingNext(be, hashmap, pairs, k, heap);
    }
    var b;
    o, b := be.IsDict();
    if o.Fault? || !b {
      return;
    }
    var has;
    o, has := be.DictHasNext();
    while o.Ok? && has
      invariant hashmap.Valid() && fresh(hashmap.Repr) && fresh(heap) && hashmap.Repr !! heap
      invariant old(be.str) <= be.str
      invariant o.Ok? && has ==> 0 <= be.str < |be.buf|
      invariant wf ==> k <= |pairs| && Filling(be, hashmap, pairs, k, heap)
      invariant wf ==> o.Ok? && (has <==> k < |pairs|)
      decreases |be.buf| - be.str
    {
      var more;
      o, more, heap := StoreNext(be, hashmap, pairs, k, heap);
      if o.Fault? || !more {
        return;
      }
      k := k + 1;
      if wf {
        FillingNext(be, hashmap, pairs, k, heap);
      }
      o, has := be.DictHasNext();
    }
    if wf {
      FillingEnds(be, hashmap, pairs, heap);
    }
  }

  lemma FillingEnds(be: Cursor, hashmap: Hashmap<Item>, pairs: seq<TreePair>, heap: set<object>)
    requires Filling(be, hashmap, pairs, |pairs|, heap)
    ensures |hashmap.Log| == StoredCount(Bindings(PairValues(pairs)))
    ensures HoldsPairs(hashmap.Log, PairValues(pairs), heap)
  {
    hide HoldsPairs, ParsePairs, StoredUpTo, Bindings, StoredCount;
    StoredUpToEnds(pairs);
  }

  lemma FillingParts(be: Cursor, hashmap: Hashmap<Item>, pairs: seq<TreePair>, k: nat, heap: set<object>)
    requires Filling(be, hashmap, pairs, k, heap)
    ensures HoldsPairs(hashmap.Log, PairValues(pairs), heap) && |hashmap.Log| == StoredUpTo(pairs, k)
  {
  }

  lemma FillingGoesOn(be: Cursor, hashmap: Hashmap<Item>, pairs: seq<TreePair>, k: nat, heap: set<object>)
    requires k <= |pairs|
    requires var r := ParsePairs(be.buf, be.start, be.len, be.str);
             r.ThePairs? && r.pairs == pairs[k..]
    requires HoldsPairs(hashmap.Log, PairValues(pairs), heap) && |hashmap.Log| == StoredUpTo(pairs, k)
    ensures Filling(be, hashmap, pairs, k, heap)
  {
  }

  /** What the log holds once pair `k` has been stored or refused. */
  lemma StoringNext(log: seq<(CString, Item)>, pairs: seq<TreePair>, k: nat, heap: set<object>,
                    x: Item, added: set<object>)
    requires k < |pairs| && HoldsPairs(log, PairValues(pairs), heap) && |log| == StoredUpTo(pairs, k)
    requires Holds(x, ValueOf(pairs[k].value), added)
    ensures if SlotsUsed(log, SLOTS) < SLOTS then
              && HoldsPairs(log + [(CStr(pairs[k].key), x)], PairValues(pairs), heap + added)
              && StoredUpTo(pairs, k + 1) == |log| + 1
            else
              HoldsPairs(log, PairValues(pairs), heap + added) && StoredUpTo(pairs, k + 1) == |log|
  {
    hide Holds, HoldsPairs, StoredUpTo, CStr;
    StoredOneMore(pairs, k, log, heap);
    PairValuesAt(pairs, k);
    if SlotsUsed(log, SLOTS) < SLOTS {
      HoldsPairsSnoc(log, PairValues(pairs), heap, x, added);
    } else {
      HoldsPairsMore(log, PairValues(pairs), heap, heap + added);
    }
  }

  /** The cursor handed out for a pair's value. */
  lemma ValueReads(be: Cursor, benk: Cursor, q: int, t: Tree)
    requires KeyAt(be.buf, be.len, q) && LengthAt(be.buf, KeyStart(be.buf, q))
    requires benk.buf == be.buf && benk.str == benk.start == TextEnd(be.buf, KeyStart(be.buf, q))
    requires benk.len == be.len - (benk.str - q)
    requires var r := ParseValueAt(be.buf, be.len, q); r.ATree? && r.tree == t && r.next <= |be.buf|
    ensures Reads(benk, t)
  {
    hide LengthAt, Parse, TextEnd;
  }

  /** One turn of the loop over the pairs: reads a pair and stores its value. */
  method StoreNext(be: Cursor, hashmap: Hashmap<Item>, ghost pairs: seq<TreePair>, ghost k: nat,
                   ghost heap: set<object>)
      returns (o: Outcome, more: bool, ghost heap': set<object>)
    requires hashmap.Valid() && hashmap.Repr !! heap && be !in hashmap.Repr && be !in heap
    requires 0 <= be.str < |be.buf|
    modifies be`str, hashmap.Repr
    ensures hashmap.Valid() && fresh(hashmap.Repr - old(hashmap.Repr))
    ensures heap <= heap' && fresh(heap' - heap) && hashmap.Repr !! heap'
    ensures o.Ok? && more ==> old(be.str) < be.str
    ensures k < |pairs| && old(Filling(be, hashmap, pairs, k, heap)) ==>
              o.Ok? && more && Filling(be, hashmap, pairs, k + 1, heap')
    decreases |be.buf| - be.str, 2
  {
    hide Reads, Parse, ParsePairs, ParseValueAt, LengthAt, KeyAt, Holds, HoldsPairs, Filling,
         StoredUpTo, StoredCount, Bindings, PairValues, CStr;
    ghost var wf := k < |pairs| && Filling(be, hashmap, pairs, k, heap);
    heap', more := heap, false;
    if wf {
      FillingNext(be, hashmap, pairs, k, heap);
      FillingParts(be, hashmap, pairs, k, heap);
    }
    ghost var q := be.str;
    var ret, benk, key, klen;
    o, ret, benk, key, klen := be.DictGetNext(true);
    if o.Fault? || ret == 0 {
      return;
    }
    var name;
    o, name := Copy(be.buf, key, klen);
    if o.Fault? {
      return;
    }
    ghost var t := if wf then pairs[k].value else IntTree(false, []);
    if wf {
      ValueReads(be, benk, q, t);
    }
    var value;
    ghost var added;
    o, value, added := Convert(benk, t);
    if o.Fault? {
      return;
    }
    more := true;
    if value.Some? {
      heap' := heap + added;
      StorePair(hashmap, name, value.value, pairs, k, heap, added);
      if wf {
        FillingGoesOn(be, hashmap, pairs, k + 1, heap');
      }
    }
  }

  /** Sets the pair's key; a refusal is not looked at. */
  method StorePair(hashmap: Hashmap<Item>, name: seq<Byte>, value: Item, ghost pairs: seq<TreePair>,
                   ghost k: nat, ghost heap: set<object>, ghost added: set<object>)
    requires hashmap.Valid() && hashmap.Repr !! heap && hashmap.Repr !! added
    modifies hashmap.Repr
    ensures hashmap.Valid() && fresh(hashmap.Repr - old(hashmap.Repr))
    ensures old(MayStore(hashmap.Log, name, value, pairs, k, heap, added)) ==>
              && HoldsPairs(hashmap.Log, PairValues(pairs), heap + added)
              && |hashmap.Log| == StoredUpTo(pairs, k + 1)
  {
    hide HoldsPairs, Holds, StoredUpTo, PairValues, CStr, SlotsUsed, Hashmap<Item>.Valid;
    if MayStore(hashmap.Log, name, value, pairs, k, heap, added) {
      StoringNext(hashmap.Log, pairs, k, heap, value, added);
    }
    var ok := hashmap.Set(CStr(name), value);
  }

  ghost predicate MayStore(log: seq<(CString, Item)>, name: seq<Byte>, value: Item, pairs: seq<TreePair>,
                           k: nat, heap: set<object>, added: set<object>)
    reads heap, added
  {
    && k < |pairs| && name == pairs[k].key
    && HoldsPairs(log, PairValues(pairs), heap) && |log| == StoredUpTo(pairs, k)
    && Holds(value, ValueOf(pairs[k].value), added)
  }

  /** The type tests on the value of a pair, in the program's order; a value of no type is
      not stored. */
  method Convert(benk: Cursor, ghost t: Tree)
      returns (o: Outcome, value: Option<Item>, ghost heap: set<object>)
    requires benk.str == benk.start
    modifies benk`str
    ensures fresh(heap)
    ensures old(Reads(benk, t)) ==> o.Ok? && value.Some? && Holds(value.value, ValueOf(t), heap)
    decreases |benk.buf| - benk.str, 8
  {
    hide Reads, Parse, Holds, HoldsItems, Bindings, StoredCount, PairValues, ItemValues, SignedAt,
         SignedEnd, SignedNumber, Linkedlist<Item>.Valid;
    ghost var wf := Reads(benk, t);
    if wf {
      ReadsType(benk, t);
    }
    value, heap := None, {};
    var b;
    o, b := benk.IsDict();
    if o.Fault? {
      return;
    }
    if b {
      var child;
      o, child, heap := DictValue(benk, t);
      value := Some(child);
      return;
    }
    o, b := benk.IsInt();
    if o.Fault? {
      return;
    }
    if b {
      if wf {
        ReadsInt(benk, t);
      }
      var ret, val;
      o, ret, val := benk.IntValue();
      value := Some(IntItem(val));
      HoldsScalars(val, [], heap);
      return;
    }
    var text;
    o, b, text := CopyString(benk, t);
    if o.Fault? {
      return;
    }
    if b {
      value := Some(StrItem(text));
      HoldsScalars(0, text, heap);
      return;
    }
    o, b := benk.IsList();
    if o.Fault? || !b {
      return;
    }
    var list;
    o, list, heap := ToList(benk, t);
    if wf {
      HoldsList(list, t, heap);
    }
    value, heap := Some(ListItem(list)), heap + list.Repr;
  }

  lemma HoldsScalars(n: int, s: seq<Byte>, heap: set<object>)
    ensures Holds(IntItem(n), Int(n), heap) && Holds(StrItem(s), Str(s), heap)
  {
  }

  lemma HoldsList(list: Linkedlist<Item>, t: Tree, heap: set<object>)
    requires t.ListTree? && list.Valid() && HoldsItems(list.Contents, ItemValues(t.items), heap)
    ensures Holds(ListItem(list), ValueOf(t), heap + list.Repr)
  {
    hide HoldsItems, ItemValues, Linkedlist<Item>.Valid;
    HoldsItemsMore(list.Contents, ItemValues(t.items), heap, heap + list.Repr);
    ListInRepr(list);
  }

  lemma ListInRepr(list: Linkedlist<Item>)
    requires list.Valid()
    ensures list as object in list.Repr
  {
  }

  lemma HoldsDict(m: Hashmap<Item>, t: Tree, heap: set<object>)
    requires t.DictTree? && m.Valid() && HoldsPairs(m.Log, PairValues(t.pairs), heap)
    requires |m.Log| == StoredCount(Bindings(PairValues(t.pairs)))
    ensures Holds(DictItem(m), ValueOf(t), heap + m.Repr)
  {
    hide HoldsPairs, PairValues, Bindings, StoredCount, Hashmap<Item>.Valid;
    HoldsPairsMore(m.Log, PairValues(t.pairs), heap, heap + m.Repr);
    MapInRepr(m);
  }

  lemma MapInRepr(m: Hashmap<Item>)
    requires m.Valid()
    ensures m as object in m.Repr
  {
  }

  /** The map of a dict as an item of its own. */
  method DictValue(benk: Cursor, ghost t: Tree) returns (o: Outcome, value: Item, ghost heap: set<object>)
    requires benk.str == benk.start
    modifies benk`str
    ensures fresh(heap)
    ensures old(Reads(benk, t)) && t.DictTree? ==> o.Ok? && Holds(value, ValueOf(t), heap)
    decreases |benk.buf| - benk.str, 4
  {
    hide Reads, Parse, Holds, HoldsPairs, Bindings, StoredCount, PairValues, Hashmap<Item>.Valid;
    ghost var wf := Reads(benk, t) && t.DictTree?;
    var child;
    o, child, heap := ToHashmap(benk, t);
    value := DictItem(child);
    if wf {
      HoldsDict(child, t, heap);
    }
    heap := heap + child.Repr;
  }

  /** The first byte tells the type of what is read. */
  lemma ReadsType(be: Cursor, t: Tree)
    requires Reads(be, t)
    ensures 0 <= be.str < |be.buf|
    ensures be.buf[be.str] == DICT <==> t.DictTree?
    ensures be.buf[be.str] == LIST <==> t.ListTree?
    ensures be.buf[be.str] == INT <==> t.IntTree?
    ensures IsDigit(be.buf[be.str]) <==> t.StrTree?
  {
  }

  lemma ReadsInt(be: Cursor, t: Tree)
    requires Reads(be, t) && t.IntTree?
    ensures SignedAt(be.buf, be.str + 1) && be.buf[SignedEnd(be.buf, be.str + 1)] == END
    ensures ValueOf(t) == Int(SignedNumber(be.buf, be.str + 1))
  {
    hide NumberAt, DecimalValue;
  }

  lemma ReadsString(be: Cursor, t: Tree)
    requires Reads(be, t) && t.StrTree?
    ensures LengthAt(be.buf, be.str) && 0 < be.len
    ensures TextEnd(be.buf, be.str) <= be.start + be.len && TextEnd(be.buf, be.str) <= |be.buf|
    ensures ValueOf(t) == Str(be.buf[TextPos(be.buf, be.str)..TextEnd(be.buf, be.str)])
  {
    hide DecimalValue;
  }

  /** Whether a string stands here, and its bytes. */
  method CopyString(be: Cursor, ghost t: Tree) returns (o: Outcome, b: bool, text: seq<Byte>)
    ensures Reads(be, t) ==> o.Ok? && (b <==> t.StrTree?)
    ensures Reads(be, t) && t.StrTree? ==> ValueOf(t) == Str(text)
  {
    hide Reads, DecimalValue, NumberAt;
    if Reads(be, t) {
      ReadsType(be, t);
      if t.StrTree? {
        ReadsString(be, t);
        LengthIsString(be.buf, be.str);
      }
    }
    text := [];
    o, b := be.IsString();
    if o.Fault? || !b {
      return;
    }
    var ret, str, len;
    o, ret, str, len := be.StringValue();
    if o.Fault? {
      return;
    }
    o, text := Copy(be.buf, str, len);
  }

  lemma LengthIsString(buf: seq<Byte>, p: int)
    requires LengthAt(buf, p)
    ensures IsDigit(buf[p]) && DigitsEnd(buf, p) < |buf| && buf[DigitsEnd(buf, p)] == COLON
  {
  }

  // ---------- The conversion of a list ----------

  /** The cursor stands before item `k`, and the list holds what is kept of those before. */
  ghost predicate Listing(benk: Cursor, list: Linkedlist<Item>, items: seq<Tree>, k: nat, heap: set<object>)
    reads benk, list, heap
  {
    && k <= |items| && benk.start <= benk.str
    && (var r := ParseItems(benk.buf, benk.len, benk.str, benk.ItemPos());
        r.TheItems? && r.items == items[k..])
    && k <= |ItemValues(items)| && HoldsItems(list.Contents, ItemValues(items)[..k], heap)
  }

  lemma ListingStarts(benk: Cursor, list: Linkedlist<Item>, t: Tree)
    requires Reads(benk, t) && t.ListTree? && list.Contents == []
    ensures Listing(benk, list, t.items, 0, {})
  {
    hide ParseItems, ParsePairs;
    ReadsType(benk, t);
    assert t.items[0..] == t.items && ItemValues(t.items)[..0] == [];
  }

  /** What the list cursor finds before item `k`. */
  lemma ListingNext(benk: Cursor, list: Linkedlist<Item>, items: seq<Tree>, k: nat, heap: set<object>)
    requires Listing(benk, list, items, k, heap)
    ensures benk.start <= benk.str && 0 <= benk.ItemPos() < |benk.buf|
    ensures benk.buf[benk.ItemPos()] == END <==> k == |items|
    ensures k < |items| ==>
              var p := benk.ItemPos();
              && Carries(benk.len, p - benk.str)
              && var r := Parse(benk.buf, p, benk.len - (p - benk.str));
                 && r.ATree? && r.next <= |benk.buf| && r.tree == items[k]
                 && var rest := ParseItems(benk.buf, benk.len, r.next, r.next);
                    rest.TheItems? && rest.items == items[k + 1..]
  {
    hide HoldsItems, Parse, ItemValues;
    var r := ParseItems(benk.buf, benk.len, benk.str, benk.ItemPos());
    if k < |items| {
      assert items[k..][0] == items[k] && items[k..][1..] == items[k + 1..];
      assert r.items != [];
    }
  }

  lemma ListingParts(benk: Cursor, list: Linkedlist<Item>, items: seq<Tree>, k: nat, heap: set<object>)
    requires Listing(benk, list, items, k, heap)
    ensures k <= |ItemValues(items)| && HoldsItems(list.Contents, ItemValues(items)[..k], heap)
  {
  }

  lemma ListingGoesOn(benk: Cursor, list: Linkedlist<Item>, items: seq<Tree>, k: nat, heap: set<object>)
    requires k <= |items| && benk.start < benk.str
    requires var r := ParseItems(benk.buf, benk.len, benk.str, benk.str);
             r.TheItems? && r.items == items[k..]
    requires k <= |ItemValues(items)| && HoldsItems(list.Contents, ItemValues(items)[..k], heap)
    ensures Listing(benk, list, items, k, heap)
  {
  }

  /** The next read of a list makes progress. */
  predicate AtItem(benk: Cursor)
    reads benk
  {
    && 0 <= benk.str < |benk.buf| && benk.buf[benk.str] != END
    && (benk.buf[benk.str] == LIST && benk.str == benk.start ==>
          benk.str + 1 < |benk.buf| && benk.buf[benk.str + 1] != END)
  }

  /** The list of a list value: strings and dicts, in order. */
  method ToList(benk: Cursor, ghost t: Tree)
      returns (o: Outcome, list: Linkedlist<Item>, ghost heap: set<object>)
    requires 0 <= benk.str == benk.start < |benk.buf| && benk.buf[benk.str] == LIST
    modifies benk`str
    ensures list.Valid() && fresh(list.Repr) && fresh(heap) && list.Repr !! heap
    ensures old(Reads(benk, t)) && t.ListTree? ==>
              o.Ok? && HoldsItems(list.Contents, ItemValues(t.items), heap)
    decreases |benk.buf| - benk.str, 7
  {
    hide Reads, Parse, ParseItems, Holds, HoldsItems, ItemValues, Listing;
    ghost var wf := Reads(benk, t) && t.ListTree?;
    ghost var items, k := if t.ListTree? then t.items else [], 0;
    list := new Linkedlist<Item>();
    heap := {};
    if wf {
      ListingStarts(benk, list, t);
      ListingNext(benk, list, items, k, heap);
      ListingHolds(benk, list, items, k, heap);
    }
    var has;
    o, has := benk.ListHasNext();
    while o.Ok? && has
      invariant list.Valid() && fresh(list.Repr) && fresh(heap) && list.Repr !! heap
      invariant o.Ok? && has ==> old(benk.str) <= benk.str && AtItem(benk)
      invariant wf ==> HeldUpTo(list, items, k, heap)
      invariant wf ==> o.Ok? && (has <==> k < |items|) && k <= |items|
      invariant wf && has ==> Listing(benk, list, items, k, heap)
      decreases if o.Ok? && has then |benk.buf| - benk.str else 0
    {
      o, heap := AppendNext(benk, list, items, k, heap);
      if o.Fault? {
        return;
      }
      k := k + 1;
      if wf {
        ListingNext(benk, list, items, k, heap);
        ListingHolds(benk, list, items, k, heap);
      }
      o, has := benk.ListHasNext();
    }
    if wf {
      AllHeld(list, items, heap);
    }
  }

  ghost predicate HeldUpTo(list: Linkedlist<Item>, items: seq<Tree>, k: nat, heap: set<object>)
    reads list, heap
  {
    k <= |ItemValues(items)| && HoldsItems(list.Contents, ItemValues(items)[..k], heap)
  }

  lemma ListingHolds(benk: Cursor, list: Linkedlist<Item>, items: seq<Tree>, k: nat, heap: set<object>)
    requires Listing(benk, list, items, k, heap)
    ensures HeldUpTo(list, items, k, heap)
  {
  }

  lemma AllHeld(list: Linkedlist<Item>, items: seq<Tree>, heap: set<object>)
    requires HeldUpTo(list, items, |items|, heap)
    ensures HoldsItems(list.Contents, ItemValues(items), heap)
  {
    hide HoldsItems, ItemValues;
    ItemValuesAt(items, 0);
    assert ItemValues(items)[..|items|] == ItemValues(items);
  }

  /** One turn of the loop over the items. A failed read is only reported; the item it left
      behind is still used, and the next test of the list then reads through NULL. */
  method AppendNext(benk: Cursor, list: Linkedlist<Item>, ghost items: seq<Tree>, ghost k: nat,
                    ghost heap: set<object>)
      returns (o: Outcome, ghost heap': set<object>)
    requires list.Valid() && list.Repr !! heap && benk !in list.Repr && benk !in heap
    requires AtItem(benk)
    modifies benk`str, list.Repr
    ensures list.Valid() && fresh(list.Repr - old(list.Repr))
    ensures heap <= heap' && fresh(heap' - heap) && list.Repr !! heap'
    ensures o.Ok? ==> old(benk.str) < benk.str || benk.str == NULL
    ensures k < |items| && old(Listing(benk, list, items, k, heap)) ==>
              o.Ok? && Listing(benk, list, items, k + 1, heap')
    decreases |benk.buf| - benk.str, 6
  {
    hide Reads, Parse, ParseItems, Holds, HoldsItems, ItemValues, Listing;
    ghost var wf := k < |items| && Listing(benk, list, items, k, heap);
    heap' := heap;
    if wf {
      ListingNext(benk, list, items, k, heap);
      ListingParts(benk, list, items, k, heap);
      ItemValuesAt(items, k);
    }
    var ret, benl;
    o, ret, benl := benk.ListGetNext(true);
    if o.Fault? {
      return;
    }
    ghost var t := if wf then items[k] else IntTree(false, []);
    if wf {
      ItemReads(benl, t);
    }
    var kept, value;
    ghost var added;
    o, kept, value, added := ConvertItem(benl, t);
    if o.Fault? {
      return;
    }
    if wf {
      HoldsItemsSnoc(list.Contents, ItemValues(items)[..k], heap, ValueOf(t), value, added);
      assert ItemValues(items)[..k + 1] == ItemValues(items)[..k] + [ValueOf(t)];
    }
    heap' := heap + added;
    if kept {
      list.Append(value);
    }
    if wf {
      ListingGoesOn(benk, list, items, k + 1, heap');
    }
  }

  lemma ItemReads(benl: Cursor, t: Tree)
    requires benl.str == benl.start
    requires var r := Parse(benl.buf, benl.str, benl.len); r.ATree? && r.tree == t && r.next <= |benl.buf|
    ensures Reads(benl, t)
  {
  }

  /** The type tests on an item of a list: only dicts and strings are kept. */
  method ConvertItem(benl: Cursor, ghost t: Tree)
      returns (o: Outcome, kept: bool, value: Item, ghost heap: set<object>)
    requires benl.str == benl.start
    modifies benl`str
    ensures fresh(heap)
    ensures old(Reads(benl, t)) ==>
              o.Ok? && (kept <==> Kept(ValueOf(t))) && (kept ==> Holds(value, ValueOf(t), heap))
    decreases |benl.buf| - benl.str, 5
  {
    hide Reads, Parse, Holds, Bindings, StoredCount, PairValues, ItemValues;
    ghost var wf := Reads(benl, t);
    if wf {
      ReadsType(benl, t);
    }
    kept, value, heap := false, IntItem(0), {};
    var b;
    o, b := benl.IsDict();
    if o.Fault? {
      return;
    }
    if b {
      o, value, heap := DictValue(benl, t);
      kept := true;
      return;
    }
    var text;
    o, kept, text := CopyString(benl, t);
    value := StrItem(text);
    HoldsScalars(0, text, heap);
  }

  // ---------- End to end ----------

  /** Encode a dict, convert the bytes, and look a key up: unless another key of the dict has
      taken its slot, the answer represents the key's first value among the pairs a map has
      room for. */
  method DecodeAndGet(v: Value, key: CString)
      returns (o: Outcome, r: Answer<Item>, ghost heap: set<object>)
    requires v.Dict? && Fits(v) && |Encode(v)| <= INT_MAX
    ensures o.Ok?
    ensures var stored := v.pairs[..StoredCount(Bindings(v.pairs))];
            && (r.Hangs? <==> !Answered(Bindings(stored), key))
            && (r.Returns? ==>
                  && (r.value.None? <==> FirstValue(stored, key).None?)
                  && (r.value.Some? ==> Holds(r.value.value, FirstValue(stored, key).value, heap)))
  {
    hide Parse, Encode, Fits, Holds, HoldsPairs, StoredCount, Bindings;
    var be := new Cursor(Encode(v), 0, |Encode(v)|);
    EncodingRead(be.buf, 0, be.len, v);
    ValueOfTree(v);
    var hashmap;
    o, hashmap, heap := ToHashmap(be, TreeOf(v));
    r := hashmap.Get(key);
    CountAtMost(Bindings(v.pairs));
    LookupFindsFirst(hashmap.Log, v.pairs, heap, key);
    HoldsSameKeys(hashmap.Log, v.pairs, heap);
    BindingsPrefix(v.pairs, |hashmap.Log|);
    InSlotSameKeys(hashmap.Log, Bindings(v.pairs[..|hashmap.Log|]), Slot(key));
  }

  lemma BindingsPrefix(pairs: seq<Pair>, n: nat)
    requires n <= |pairs|
    ensures |Bindings(pairs)| == |pairs| && Bindings(pairs)[..n] == Bindings(pairs[..n])
  {
  }
}
