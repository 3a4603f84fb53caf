/** The chained hash map. A key set twice keeps its first value: `set` always adds a bucket
    at the end of a chain. `get` finds a value only at the head of a chain: the call meant for
    the next bucket is made on the same bucket again and never returns. */
module Hashmaps {
  import opened Bytes
  import JenkinsHash

  /** _MAX_HASHTABLE_KEYS */
  const SLOTS: nat := 10000

  /** Which chain holds a key. */
  function Slot(key: CString): (i: nat)
    ensures i < SLOTS
  {
    JenkinsHash.Hash(key) as int % SLOTS
  }

  // ---------- The abstract map: a log of bindings in the order they were set ----------

  /** The value of the oldest binding of a key. */
  function Lookup<V>(log: seq<(CString, V)>, key: CString): Option<V> {
    if log == [] then None
    else if log[0].0 == key then Some(log[0].1)
    else Lookup(log[1..], key)
  }

  /** The bindings that live in chain `i`. */
  function InSlot<V>(log: seq<(CString, V)>, i: int): seq<(CString, V)> {
    if log == [] then []
    else InSlot(log[..|log| - 1], i) + if Slot(log[|log| - 1].0) == i then [log[|log| - 1]] else []
  }

  lemma {:induction false} LookupConcat<V>(a: seq<(CString, V)>, b: seq<(CString, V)>, key: CString)
    ensures Lookup(a + b, key) == if Lookup(a, key).Some? then Lookup(a, key) else Lookup(b, key)
  {
    if a == [] {
      assert a + b == b;
    } else {
      assert (a + b)[1..] == a[1..] + b;
      LookupConcat(a[1..], b, key);
    }
  }

  /** A binding of a key that is already bound changes no lookup at all; a binding of a new
      key changes that key's lookup only. */
  lemma FirstBindingWins<V>(log: seq<(CString, V)>, key: CString, value: V, other: CString)
    ensures Lookup(log + [(key, value)], other) ==
            if other == key && Lookup(log, key).None? then Some(value) else Lookup(log, other)
  {
    LookupConcat(log, [(key, value)], other);
  }

  /** Lookup is the first binding: some index holds it and no smaller index has the key. */
  lemma {:induction false} LookupIsFirst<V>(log: seq<(CString, V)>, key: CString)
    ensures Lookup(log, key).None? <==> forall j | 0 <= j < |log| :: log[j].0 != key
    ensures Lookup(log, key).Some? ==>
              exists i | 0 <= i < |log| ::
                && log[i] == (key, Lookup(log, key).value)
                && forall j | 0 <= j < i :: log[j].0 != key
  {
    if log == [] {
    } else if log[0].0 == key {
      assert log[0] == (key, log[0].1);
    } else {
      LookupIsFirst(log[1..], key);
      assert forall j | 1 <= j < |log| :: log[j] == log[1..][j - 1];
      if Lookup(log, key).Some? {
        var i :| 0 <= i < |log[1..]| && log[1..][i] == (key, Lookup(log, key).value) &&
                 forall j | 0 <= j < i :: log[1..][j].0 != key;
        assert log[i + 1] == (key, Lookup(log, key).value);
      }
    }
  }

  /** Looking a key up in its own chain gives what the whole log gives. */
  lemma {:induction false} LookupInSlot<V>(log: seq<(CString, V)>, key: CString)
    ensures Lookup(InSlot(log, Slot(key)), key) == Lookup(log, key)
  {
    if log == [] {
    } else {
      var front, last := log[..|log| - 1], log[|log| - 1];
      assert log == front + [last];
      LookupInSlot(front, key);
      LookupConcat(front, [last], key);
      LookupConcat(InSlot(front, Slot(key)),
                   if Slot(last.0) == Slot(key) then [last] else [], key);
    }
  }

  /** Chain `i` holds the bindings whose keys hash to `i` and no others. */
  lemma {:induction false} InSlotHashes<V>(log: seq<(CString, V)>, i: int, b: (CString, V))
    ensures b in InSlot(log, i) <==> b in log && Slot(b.0) == i
  {
    if log != [] {
      InSlotHashes(log[..|log| - 1], i, b);
      assert log == log[..|log| - 1] + [log[|log| - 1]];
    }
  }

  /** How many of the first `n` slots a log uses. */
  ghost function SlotsUsed<V>(log: seq<(CString, V)>, n: nat): nat {
    if n == 0 then 0
    else SlotsUsed(log, n - 1) + if InSlot(log, n - 1) == [] then 0 else 1
  }

  lemma {:induction false} OneMoreSlot<V>(log: seq<(CString, V)>, n: nat)
    requires log != []
    ensures SlotsUsed(log, n) <=
            SlotsUsed(log[..|log| - 1], n) + if Slot(log[|log| - 1].0) < n then 1 else 0
  {
    if n > 0 {
      OneMoreSlot(log, n - 1);
    }
  }

  lemma {:induction false} NoSlots<V>(n: nat)
    ensures SlotsUsed<V>([], n) == 0
  {
    if n > 0 {
      NoSlots<V>(n - 1);
    }
  }

  lemma {:induction false} SlotsUsedAtMost<V>(log: seq<(CString, V)>, n: nat)
    ensures SlotsUsed(log, n) <= |log|
  {
    if log == [] {
      NoSlots<V>(n);
    } else {
      OneMoreSlot(log, n);
      SlotsUsedAtMost(log[..|log| - 1], n);
    }
  }

  lemma {:induction false} SlotsUsedAtMostAll<V>(log: seq<(CString, V)>, n: nat)
    ensures SlotsUsed(log, n) <= n
  {
    if n > 0 {
      SlotsUsedAtMostAll(log, n - 1);
    }
  }

  /** How many of the bindings are stored when they are set one after the other in an empty map:
      from the first one that finds every slot used, all are refused. */
  ghost function StoredCount<V>(log: seq<(CString, V)>): (c: nat)
    ensures c <= |log|
  {
    if log == [] then 0
    else
      var front := log[..|log| - 1];
      var c := StoredCount(front);
      if c == |front| && SlotsUsed(front, SLOTS) < SLOTS then c + 1 else c
  }

  ghost predicate AllStored<V>(log: seq<(CString, V)>) {
    StoredCount(log) == |log|
  }

  lemma StoredNext<V>(log: seq<(CString, V)>, b: (CString, V))
    ensures StoredCount(log + [b]) ==
            if AllStored(log) && SlotsUsed(log, SLOTS) < SLOTS then |log| + 1 else StoredCount(log)
  {
    assert (log + [b])[..|log|] == log;
  }

  /** If a binding is refused, those stored before it use every slot. */
  lemma {:induction false} RefusedWhenFull<V>(log: seq<(CString, V)>)
    ensures AllStored(log) || SlotsUsed(log[..StoredCount(log)], SLOTS) == SLOTS
  {
    if log != [] {
      var front := log[..|log| - 1];
      RefusedWhenFull(front);
      SlotsUsedAtMostAll(front, SLOTS);
      assert front[..StoredCount(front)] == log[..StoredCount(front)];
      assert front[..|front|] == front;
    }
  }

  lemma {:induction false} StoredPrefix<V>(a: seq<(CString, V)>, b: seq<(CString, V)>)
    requires a <= b && AllStored(b)
    ensures AllStored(a)
  {
    if |a| < |b| {
      StoredPrefix(a, b[..|b| - 1]);
    } else {
      assert a == b;
    }
  }

  /** As many bindings as there are slots always fit. */
  lemma {:induction false} FewAreStored<V>(log: seq<(CString, V)>)
    requires |log| <= SLOTS
    ensures AllStored(log)
  {
    if log != [] {
      FewAreStored(log[..|log| - 1]);
      SlotsUsedAtMost(log[..|log| - 1], SLOTS);
    }
  }

  lemma {:induction false} SlotsUsedSameKeys<V, W>(a: seq<(CString, V)>, b: seq<(CString, W)>, n: nat)
    requires |a| == |b| && forall k | 0 <= k < |a| :: a[k].0 == b[k].0
    ensures SlotsUsed(a, n) == SlotsUsed(b, n)
  {
    hide InSlot;
    if n > 0 {
      SlotsUsedSameKeys(a, b, n - 1);
      InSlotSameKeys(a, b, n - 1);
    }
  }

  // ---------- What a lookup does ----------

  /** A lookup that calls itself with the same arguments does not return. */
  datatype Answer<+V> = Returns(value: Option<V>) | Hangs

  /** The head of the chain settles the lookup: it holds the key, or nothing comes after it. */
  predicate HeadSettles<V>(chain: seq<(CString, V)>, key: CString) {
    |chain| <= 1 || chain[0].0 == key
  }

  predicate Answered<V>(log: seq<(CString, V)>, key: CString) {
    HeadSettles(InSlot(log, Slot(key)), key)
  }

  /** Without another key in its slot a key is always answered. */
  lemma AloneIsAnswered<V>(log: seq<(CString, V)>, key: CString)
    requires forall b | b in log && Slot(b.0) == Slot(key) :: b.0 == key
    ensures Answered(log, key)
  {
    var chain := InSlot(log, Slot(key));
    if chain != [] {
      InSlotHashes(log, Slot(key), chain[0]);
    }
  }

  /** Every key that was set can be looked up if and only if no two of them share a slot. */
  lemma AllAnsweredIff<V>(log: seq<(CString, V)>)
    ensures (forall b | b in log :: Answered(log, b.0)) <==>
            (forall b, c | b in log && c in log && Slot(b.0) == Slot(c.0) :: b.0 == c.0)
  {
    hide InSlot;
    if forall b | b in log :: Answered(log, b.0) {
      forall b, c | b in log && c in log && Slot(b.0) == Slot(c.0)
        ensures b.0 == c.0
      {
        InSlotHashes(log, Slot(b.0), b);
        InSlotHashes(log, Slot(b.0), c);
      }
    }
    if forall b, c | b in log && c in log && Slot(b.0) == Slot(c.0) :: b.0 == c.0 {
      forall b | b in log
        ensures Answered(log, b.0)
      {
        AloneIsAnswered(log, b.0);
      }
    }
  }

  lemma InSlotSnoc<V>(log: seq<(CString, V)>, b: (CString, V), i: int)
    ensures InSlot(log + [b], i) == InSlot(log, i) + if Slot(b.0) == i then [b] else []
  {
    assert (log + [b])[..|log|] == log;
  }

  /** A key that has been found stays found, whatever is set afterwards. */
  lemma FoundStaysFound<V>(log: seq<(CString, V)>, key: CString, b: (CString, V))
    requires Answered(log, key) && Lookup(log, key).Some?
    ensures Answered(log + [b], key) && Lookup(log + [b], key) == Lookup(log, key)
  {
    hide Lookup, InSlot;
    InSlotSnoc(log, b, Slot(key));
    LookupInSlot(log, key);
    HeadFound(InSlot(log, Slot(key)), key);
    FirstBindingWins(log, b.0, b.1, key);
    assert log + [b] == log + [(b.0, b.1)];
  }

  lemma HeadFound<V>(chain: seq<(CString, V)>, key: CString)
    requires HeadSettles(chain, key) && Lookup(chain, key).Some?
    ensures chain != [] && chain[0].0 == key
  {
    assert |chain| == 1 ==> Lookup(chain[1..], key).None?;
  }

  /** A key set after another key took its slot is lost: looking it up does not return, and
      no later binding changes that. */
  lemma {:induction false} TakenSlotLoses<V>(log: seq<(CString, V)>, key: CString, value: V,
                                             more: seq<(CString, V)>)
    requires InSlot(log, Slot(key)) != [] && InSlot(log, Slot(key))[0].0 != key
    ensures !Answered(log + [(key, value)] + more, key)
  {
    var now := log + [(key, value)];
    if more == [] {
      InSlotSnoc(log, (key, value), Slot(key));
      assert now + more == now;
    } else {
      var n := |more| - 1;
      TakenSlotLoses(log, key, value, more[..n]);
      InSlotSnoc(now + more[..n], more[n], Slot(key));
      assert now + more == now + more[..n] + [more[n]];
    }
  }

  /** Whether a lookup is answered depends on the keys alone. */
  lemma {:induction false} InSlotSameKeys<V, W>(a: seq<(CString, V)>, b: seq<(CString, W)>, i: int)
    requires |a| == |b| && forall k | 0 <= k < |a| :: a[k].0 == b[k].0
    ensures |InSlot(a, i)| == |InSlot(b, i)|
    ensures forall k | 0 <= k < |InSlot(a, i)| :: InSlot(a, i)[k].0 == InSlot(b, i)[k].0
  {
    if a != [] {
      InSlotSameKeys(a[..|a| - 1], b[..|b| - 1], i);
    }
  }

  /** The texts "bb" and "bq" */
  const BB: seq<Byte> := [0x62, 0x62]
  const BQ: seq<Byte> := [0x62, 0x71]

  lemma HashesOfBbAndBq()
    ensures JenkinsHash.Hash(BB) == 0xFCB30ACB && JenkinsHash.Hash(BQ) == 0x9B0A477B
  {
    JenkinsHash.HashOfTwo(0x62, 0x62);
    JenkinsHash.HashOfTwo(0x62, 0x71);
  }

  lemma WordsAsInts()
    ensures (0xFCB30ACB as bv32) as int == 4239592139 && (0x9B0A477B as bv32) as int == 2601142139
  {
  }

  /** So the map does not refine its log: "bb" and "bq" share a slot, and after setting both
      the value of the second is there but cannot be looked up. */
  lemma CollisionHangs<V>(v: V, w: V)
    ensures NulFree(BB) && NulFree(BQ) && Slot(BB) == Slot(BQ) == 2139
    ensures Lookup([(BB, v), (BQ, w)], BQ) == Some(w)
    ensures !Answered([(BB, v), (BQ, w)], BQ)
  {
    HashesOfBbAndBq();
    WordsAsInts();
    var one: seq<(CString, V)> := [(BB, v)];
    InSlotSnoc([], (BB, v), Slot(BQ));
    assert [] + [(BB, v)] == one;
    TakenSlotLoses(one, BQ, w, []);
    assert one + [(BQ, w)] + [] == [(BB, v), (BQ, w)];
    LookupConcat(one, [(BQ, w)], BQ);
  }

  // ---------- Buckets ----------

  class Bucket<V> {
    var key: Option<CString>
    var value: Option<V>
    var next: Bucket?<V>

    ghost var Chain: seq<(CString, V)>
    ghost var Repr: set<Bucket<V>>

    ghost predicate Valid()
      reads this, Repr
      ensures Valid() ==> this in Repr
      decreases Repr
    {
      && this in Repr
      && (key.None? <==> value.None?)
      && (key.None? ==> next == null && Chain == [])
      && (next == null ==> Repr == {this})
      && (key.Some? && next == null ==> Chain == [(key.value, value.value)])
      && (next != null ==>
            && next in Repr && next.Repr == Repr - {this}
            && next.Valid() && next.Chain != []
            && Chain == [(key.value, value.value)] + next.Chain)
    }

    constructor (key: CString, value: V)
      ensures Valid() && Repr == {this}
      ensures Chain == [(key, value)]
      decreases 1
    {
      this.key := None;
      this.value := None;
      this.next := null;
      Chain, Repr := [], {this};
      new;
      Set(key, value);
    }

    /** Fills an empty bucket; otherwise hands the binding down the chain and, at its end,
        hangs a new bucket. */
    method Set(key: CString, value: V)
      requires Valid()
      modifies Repr
      ensures Valid() && fresh(Repr - old(Repr)) && old(Repr) <= Repr
      ensures old(this.key.None?) ==> Repr == old(Repr)
      ensures Chain == old(Chain) + [(key, value)]
      decreases if this.key.None? then 0 else |Repr| + 1
    {
      if this.key.Some? {
        if next != null {
          next.Set(key, value);
        } else {
          next := new Bucket(key, value);
        }
        Repr := {this} + next.Repr;
      } else {
        this.key := Some(key);
        this.value := Some(value);
      }
      Chain := Chain + [(key, value)];
    }

    /** A matching bucket answers. One that does not match but has a successor calls itself:
        the call goes through `next` but passes this bucket. */
    function Get(key: CString): (r: Answer<V>)
      requires Valid() && Chain != []
      reads Repr
      ensures r == if HeadSettles(Chain, key) then Returns(Lookup(Chain, key)) else Hangs
    {
      if this.key.value == key then Returns(value)
      else if next != null then Hangs
      else Returns(None)
    }

    /** The call itself, cut off after `fuel` calls deep: None when it has not returned by then. */
    function GetWithin(key: CString, fuel: nat): (r: Option<Option<V>>)
      requires Valid() && Chain != []
      reads Repr
    {
      if this.key.value == key then Some(value)
      else if next != null then if fuel == 0 then None else this.GetWithin(key, fuel - 1)
      else Some(None)
    }

    lemma {:induction false} NeverReturns(key: CString, fuel: nat)
      requires Valid() && Chain != []
      ensures GetWithin(key, fuel) ==
              if HeadSettles(Chain, key) then Some(Lookup(Chain, key)) else None
    {
      if fuel > 0 && this.key.value != key && next != null {
        NeverReturns(key, fuel - 1);
      }
    }

    /** Get hangs exactly when no number of nested calls is enough, and what it returns is what
        the calls return. */
    lemma GetIsTheCall(key: CString)
      requires Valid() && Chain != []
      ensures Get(key).Hangs? <==> forall fuel: nat :: GetWithin(key, fuel).None?
      ensures Get(key).Returns? ==> forall fuel: nat :: GetWithin(key, fuel) == Some(Get(key).value)
    {
      hide GetWithin;
      forall fuel: nat
        ensures GetWithin(key, fuel) ==
                if HeadSettles(Chain, key) then Some(Lookup(Chain, key)) else None
      {
        NeverReturns(key, fuel);
      }
      if HeadSettles(Chain, key) {
        assert GetWithin(key, 0).Some?;
      }
    }
  }

  // ---------- The table ----------

  /** How many slots hold a chain. */
  ghost function Occupied<V>(slots: seq<Bucket?<V>>): nat {
    if slots == [] then 0
    else Occupied(slots[..|slots| - 1]) + if slots[|slots| - 1] == null then 0 else 1
  }

  lemma {:induction false} OccupiedFull<V>(slots: seq<Bucket?<V>>)
    ensures Occupied(slots) <= |slots|
    ensures Occupied(slots) == |slots| <==> forall i | 0 <= i < |slots| :: slots[i] != null
  {
    if slots != [] {
      OccupiedFull(slots[..|slots| - 1]);
    }
  }

  lemma {:induction false} OccupiedUpdate<V>(slots: seq<Bucket?<V>>, i: nat, b: Bucket<V>)
    requires i < |slots|
    ensures Occupied(slots[i := b]) == Occupied(slots) + if slots[i] == null then 1 else 0
  {
    var n := |slots| - 1;
    if i < n {
      assert slots[i := b][..n] == slots[..n][i := b];
      OccupiedUpdate(slots[..n], i, b);
    } else {
      assert slots[i := b][..n] == slots[..n];
    }
  }

  lemma {:induction false} OccupiedNone<V>(slots: seq<Bucket?<V>>)
    requires forall i | 0 <= i < |slots| :: slots[i] == null
    ensures Occupied(slots) == 0
  {
    if slots != [] {
      OccupiedNone(slots[..|slots| - 1]);
    }
  }

  class Hashmap<V> {
    var bucketCount: int
    const buckets: array<Bucket?<V>>

    ghost var Log: seq<(CString, V)>
    ghost var Repr: set<object>

    ghost predicate ChainValid(i: nat)
      requires i < buckets.Length
      reads this, Repr, buckets
    {
      var b := buckets[i];
      if b == null then InSlot(Log, i) == []
      else
        && b in Repr && b.Repr <= Repr
        && b.Valid() && b.Chain != []
        && b.Chain == InSlot(Log, i)
    }

    ghost predicate Separate(i: nat, j: nat)
      requires i < buckets.Length && j < buckets.Length
      reads this, Repr, buckets
    {
      buckets[i] != null && buckets[j] != null && buckets[i] in Repr && buckets[j] in Repr ==>
        buckets[i].Repr !! buckets[j].Repr
    }

    ghost predicate Valid()
      reads this, Repr
      ensures Valid() ==> this in Repr
    {
      && this in Repr && buckets in Repr
      && buckets.Length == SLOTS
      && (forall i | 0 <= i < SLOTS :: ChainValid(i))
      && (forall i, j | 0 <= i < j < SLOTS :: Separate(i, j))
      && bucketCount == Occupied(buckets[..])
    }

    lemma {:induction false} OccupiedIsUsed(n: nat)
      requires Valid() && n <= SLOTS
      ensures Occupied(buckets[..n]) == SlotsUsed(Log, n)
    {
      if n > 0 {
        OccupiedIsUsed(n - 1);
        assert buckets[..n][..n - 1] == buckets[..n - 1];
        assert ChainValid(n - 1);
      }
    }

    /** A table never occupies more slots than it was given bindings. */
    lemma CountAtMostLog()
      requires Valid()
      ensures bucketCount <= |Log|
    {
      OccupiedIsUsed(SLOTS);
      SlotsUsedAtMost(Log, SLOTS);
      assert buckets[..SLOTS] == buckets[..];
    }

    lemma CountIsUsed()
      requires Valid()
      ensures bucketCount == SlotsUsed(Log, SLOTS)
      ensures bucketCount < SLOTS <==> exists i | 0 <= i < SLOTS :: buckets[i] == null
    {
      OccupiedIsUsed(SLOTS);
      assert buckets[..SLOTS] == buckets[..];
      OccupiedFull(buckets[..]);
    }

    lemma ChainsApart(index: nat)
      requires Valid() && index < SLOTS
      ensures ChainValid(index)
      ensures forall i | 0 <= i < SLOTS && i != index && buckets[i] != null && buckets[index] != null ::
                buckets[i].Repr !! buckets[index].Repr
    {
      forall i | 0 <= i < SLOTS && i != index && buckets[i] != null && buckets[index] != null
        ensures buckets[i].Repr !! buckets[index].Repr
      {
        assert ChainValid(i);
        assert if i < index then Separate(i, index) else Separate(index, i);
      }
    }

    /** What it takes to keep the table in order when only chain `index` has grown. */
    twostate lemma ChainGrown(index: nat, new binding: (CString, V), new b: Bucket<V>)
      requires old(Valid()) && index == Slot(binding.0)
      requires {this, buckets} <= Repr && old(Repr) <= Repr
      requires Log == old(Log) + [binding]
      requires buckets[..] == old(buckets[..])[index := b]
      requires forall i | 0 <= i < SLOTS && i != index && old(buckets[i] != null) ::
                 unchanged(old(buckets[i].Repr))
      requires b.Valid() && b.Repr <= Repr
      requires b.Chain == (if old(buckets[index] == null) then [] else old(buckets[index].Chain)) + [binding]
      requires forall o | o in b.Repr ::
                 !old(allocated(o)) || (old(buckets[index] != null) && o in old(buckets[index].Repr))
      ensures forall i | 0 <= i < SLOTS :: ChainValid(i)
      ensures forall i, j | 0 <= i < j < SLOTS :: Separate(i, j)
    {
      assert Log[..|Log| - 1] == old(Log);
      forall i | 0 <= i < SLOTS
        ensures ChainValid(i)
      {
        assert old(ChainValid(i));
        assert i != index ==> buckets[i] == buckets[..][i] == old(buckets[..][i]) == old(buckets[i]);
      }
      forall i, j | 0 <= i < j < SLOTS
        ensures Separate(i, j)
      {
        assert old(Separate(i, j) && ChainValid(i) && ChainValid(j));
        assert i != index ==> buckets[i] == buckets[..][i] == old(buckets[..][i]) == old(buckets[i]);
        assert j != index ==> buckets[j] == buckets[..][j] == old(buckets[..][j]) == old(buckets[j]);
      }
    }

    constructor ()
      ensures Valid() && fresh(Repr)
      ensures Log == []
    {
      bucketCount := 0;
      buckets := new Bucket?<V>[SLOTS](i => null);
      Log := [];
      new;
      Repr := {this, buckets};
      OccupiedNone(buckets[..]);
    }

    /** Refused exactly when no slot is free, even for a key whose chain exists. */
    method Set(key: CString, value: V) returns (ok: bool)
      requires Valid()
      modifies Repr
      ensures Valid() && fresh(Repr - old(Repr)) && old(Repr) <= Repr
      ensures ok <==> exists i | 0 <= i < SLOTS :: old(buckets[i] == null)
      ensures ok <==> SlotsUsed(old(Log), SLOTS) < SLOTS
      ensures Log == if ok then old(Log) + [(key, value)] else old(Log)
    {
      hide Occupied, SlotsUsed, InSlot;
      CountIsUsed();
      if bucketCount >= SLOTS {
        return false;
      }
      var hash := JenkinsHash.GetHash(key);
      var index := hash as int % SLOTS;
      ChainsApart(index);
      if buckets[index] != null {
        buckets[index].Set(key, value);
        Repr := Repr + buckets[index].Repr;
      } else {
        var bucket := new Bucket(key, value);
        OccupiedUpdate(buckets[..], index, bucket);
        buckets[index] := bucket;
        bucketCount := bucketCount + 1;
        Repr := Repr + bucket.Repr;
      }
      assert buckets[..] == old(buckets[..])[index := buckets[index]];
      Log := Log + [(key, value)];
      ChainGrown(index, (key, value), buckets[index]);
      ok := true;
    }

    /** The first binding of the key, or none; or no answer at all. */
    method Get(key: CString) returns (r: Answer<V>)
      requires Valid()
      ensures r == if Answered(Log, key) then Returns(Lookup(Log, key)) else Hangs
    {
      var hash := JenkinsHash.GetHash(key);
      var index := hash as int % SLOTS;
      LookupInSlot(Log, key);
      assert ChainValid(index);
      if buckets[index] != null {
        r := buckets[index].Get(key);
      } else {
        r := Returns(None);
      }
    }

    /** The chain a key would be in, whatever key its head has. */
    method GetBucket(key: CString) returns (r: Bucket?<V>)
      requires Valid()
      ensures r == null <==> InSlot(Log, Slot(key)) == []
      ensures r != null ==> r in Repr && r.Valid() && r.Chain == InSlot(Log, Slot(key))
    {
      var hash := JenkinsHash.GetHash(key);
      var index := hash as int % SLOTS;
      assert ChainValid(index);
      r := buckets[index];
    }
  }
}
