/** A torrent described by a magnet link: the character machine that takes the link apart and
    sends its pairs to the tracker list and the hash map. */
module Torrents {
  import opened Bytes
  import opened Hashmaps
  import opened Linkedlists
  import opened StringUtils
  import opened Trackers
  import opened Magnet

  // ---------- The machine's progress through the text ----------

  /** The text `s` has been read up to `i`: the pairs in `done` have been stored, and the part
      being read started at `start`. Past the last byte nothing more is bound. */
  ghost predicate Reading(s: CString, i: nat, inKey: bool, start: nat, key: CString, done: seq<Binding>) {
    && start <= i <= |s|
    && if i == |s| then ParsePairs(s) == done
       else
         var r := Slice(s, start, |s|);
         if inKey then
           EQUALS !in r[..i - start] && PartsFit(r) && ParsePairs(s) == done + ParsePairs(r)
         else
           AMPERSAND !in r[..i - start] && ValueFits(r) && ParsePairs(s) == done + ParseValue(key, r)
  }

  lemma StopFrom(r: seq<Byte>, c: Byte, k: nat)
    requires k < |r| && c !in r[..k]
    ensures Stop(r, c) == k <==> k == |r| - 1 || r[k] == c
    ensures Stop(r, c) >= k
  {
    if k == |r| - 1 || r[k] == c {
      StopAt(r, c, k);
    }
  }

  lemma ReadingStarts(s: CString)
    requires PartsFit(s)
    ensures Slice(s, 0, 0) == []
    ensures Reading(s, 0, true, 0, [], [])
  {
    hide PartsFit, ValueFits, ParseValue;
    assert Slice(s, 0, |s|) == s;
  }

  /** One more byte of a key. */
  lemma KeyGoesOn(s: CString, i: nat, start: nat, key: CString, done: seq<Binding>)
    requires Reading(s, i, true, start, key, done) && i < |s| - 1 && s[i] != EQUALS
    ensures i - start < 255
    ensures Reading(s, i + 1, true, start, key, done)
  {
    hide NulFree, ParsePairs, ParseValue, ValueFits;
    var r := Slice(s, start, |s|);
    StopFrom(r, EQUALS, i - start);
    assert r[..i + 1 - start] == r[..i - start] + [s[i]];
  }

  lemma KeyEnds(s: CString, i: nat, start: nat, key: CString, done: seq<Binding>)
    requires Reading(s, i, true, start, key, done) && i < |s| - 1 && s[i] == EQUALS
    ensures i - start <= 255
    ensures Reading(s, i + 1, false, i + 1, Slice(s, start, i), done)
  {
    hide NulFree, ParseValue, ValueFits;
    var r := Slice(s, start, |s|);
    StopFrom(r, EQUALS, i - start);
    assert Slice(r, 0, i - start) == Slice(s, start, i);
    assert Slice(r, i - start + 1, |r|) == Slice(s, i + 1, |s|);
  }

  lemma KeyRunsOut(s: CString, i: nat, start: nat, key: CString, done: seq<Binding>)
    requires Reading(s, i, true, start, key, done) && i == |s| - 1
    ensures i - start <= 255
    ensures Reading(s, i + 1, false, i + 1, key, done)
  {
    hide NulFree, ParseValue, ValueFits;
    var r := Slice(s, start, |s|);
    StopFrom(r, EQUALS, i - start);
  }

  lemma ValueGoesOn(s: CString, i: nat, start: nat, key: CString, done: seq<Binding>)
    requires Reading(s, i, false, start, key, done) && i < |s| - 1 && s[i] != AMPERSAND
    ensures i - start < 255
    ensures Reading(s, i + 1, false, start, key, done)
  {
    hide NulFree, ParsePairs, ParseValue, PartsFit;
    var r := Slice(s, start, |s|);
    StopFrom(r, AMPERSAND, i - start);
    assert r[..i + 1 - start] == r[..i - start] + [s[i]];
  }

  lemma ValueEnds(s: CString, i: nat, start: nat, key: CString, done: seq<Binding>)
    requires Reading(s, i, false, start, key, done) && i < |s| - 1 && s[i] == AMPERSAND
    ensures i - start <= 255
    ensures Reading(s, i + 1, true, i + 1, key, done + [(key, Slice(s, start, i))])
  {
    hide NulFree, ParsePairs, PartsFit;
    var r := Slice(s, start, |s|);
    StopFrom(r, AMPERSAND, i - start);
    assert Slice(r, 0, i - start) == Slice(s, start, i);
    assert Slice(r, i - start + 1, |r|) == Slice(s, i + 1, |s|);
  }

  lemma ValueRunsOut(s: CString, i: nat, start: nat, key: CString, done: seq<Binding>)
    requires Reading(s, i, false, start, key, done) && i == |s| - 1
    ensures i - start < 255
    ensures Reading(s, i + 1, true, i + 1, key, done + [(key, Slice(s, start, i + 1))])
  {
    hide NulFree, ParsePairs, PartsFit;
    var r := Slice(s, start, |s|);
    StopFrom(r, AMPERSAND, i - start);
    assert Slice(s, start, i + 1) == r;
  }

  /** A part being read has not outgrown its buffer. */
  lemma StillFits(s: CString, i: nat, inKey: bool, start: nat, key: CString, done: seq<Binding>)
    requires Reading(s, i, inKey, start, key, done) && i < |s|
    ensures i - start <= 255
  {
    hide NulFree, ParsePairs, ParseValue;
    StopFrom(Slice(s, start, |s|), if inKey then EQUALS else AMPERSAND, i - start);
  }

  lemma AllRead(s: CString, inKey: bool, start: nat, key: CString, done: seq<Binding>)
    requires Reading(s, |s|, inKey, start, key, done)
    ensures ParsePairs(s) == done
  {
  }

  lemma {:induction false} RoutePrefix(a: seq<Binding>, b: seq<Binding>)
    requires a <= b
    ensures TrackerValues(a) <= TrackerValues(b) && Others(a) <= Others(b)
  {
    if |a| < |b| {
      RoutePrefix(a, b[..|b| - 1]);
    } else {
      assert a == b;
    }
  }

  /** What has been stored, with the pair stored last, is part of what the link means. */
  lemma PairRead(s: CString, i: nat, start: nat, key: CString, done: seq<Binding>, p: Binding)
    requires Reading(s, i, true, start, key, done + [p])
    ensures p.0 == TR ==> p.1 in TrackerValues(ParsePairs(s))
    ensures AllStored(Others(done)) && AllStored(Others(ParsePairs(s))) ==> AllStored(Others(done + [p]))
    ensures AllStored(Others(done + [p])) <==>
            AllStored(Others(done)) && (p.0 == TR || SlotsUsed(Others(done), SLOTS) < SLOTS)
  {
    hide ParsePairs, ParseValue, PartsFit, ValueFits, TrackerValues, Others, SlotsUsed;
    RoutePrefix(done + [p], ParsePairs(s));
    RouteNext(done, p);
    StoredNext(Others(done), p);
    assert Others(done) + [] == Others(done);
    if AllStored(Others(ParsePairs(s))) {
      StoredPrefix(Others(done + [p]), Others(ParsePairs(s)));
    }
    assert p.0 == TR ==> p.1 in TrackerValues(done + [p]);
  }

  lemma NextSlice(s: CString, start: nat, i: nat)
    requires start <= i < |s|
    ensures Slice(s, start, i) + [s[i]] == Slice(s, start, i + 1)
    ensures |Slice(s, start, i)| == i - start
  {
  }

  lemma NothingYet(s: CString, i: nat)
    requires i <= |s|
    ensures Slice(s, i, i) == []
  {
  }

  // ---------- The two states of the machine ----------

  /** Takes one byte of a key; `key` tells whether the key goes on. */
  method ReadKeyByte(s: CString, i: nat, strPos: nat, buffer: array<Byte>,
                     ghost start: nat, ghost text: CString, ghost done: seq<Binding>)
      returns (key: bool, strPos': nat, ghost start': nat, ghost text': CString)
    requires i < |s| && Reading(s, i, true, start, text, done)
    requires start <= i && strPos == i - start && Buffered(buffer, Slice(s, start, i))
    modifies buffer
    ensures Reading(s, i + 1, key, start', text', done)
    ensures start' <= i + 1 && strPos' == i + 1 - start'
    ensures key ==> Buffered(buffer, Slice(s, start', i + 1))
    ensures !key && i + 1 < |s| ==> start' == i + 1 && |text'| <= 255 && Buffered(buffer, text')
  {
    hide Reading, Slice, NulFree, Buffered;
    var inputLen := |s| - 1;
    StillFits(s, i, true, start, text, done);
    NextSlice(s, start, i);
    if s[i] != EQUALS && strPos < 256 && i < inputLen {
      KeyGoesOn(s, i, start, text, done);
      Put(buffer, strPos, s[i], Slice(s, start, i));
      return true, strPos + 1, start, text;
    }
    if i == inputLen {
      KeyRunsOut(s, i, start, text, done);
      Put(buffer, strPos, s[i], Slice(s, start, i));
      text' := text;
    } else {
      KeyEnds(s, i, start, text, done);
      text' := Slice(s, start, i);
    }
    key, strPos', start' := false, 0, i + 1;
  }

  /** Takes one byte of a value; `complete` tells whether the value has ended. */
  method ReadValueByte(s: CString, i: nat, strPos: nat, buffer: array<Byte>,
                       ghost start: nat, ghost text: CString, ghost done: seq<Binding>)
      returns (complete: bool)
    requires i < |s| && Reading(s, i, false, start, text, done)
    requires start <= i && strPos == i - start && Buffered(buffer, Slice(s, start, i))
    modifies buffer
    ensures !complete ==> i + 1 < |s| && Reading(s, i + 1, false, start, text, done)
    ensures !complete ==> Buffered(buffer, Slice(s, start, i + 1))
    ensures complete ==> Reading(s, i + 1, true, i + 1, text, done + [(text, CStr(buffer[..]))])
  {
    hide Reading, Slice, NulFree, Buffered, CStr;
    var inputLen := |s| - 1;
    StillFits(s, i, false, start, text, done);
    NextSlice(s, start, i);
    if s[i] != AMPERSAND && strPos < 256 && i < inputLen {
      ValueGoesOn(s, i, start, text, done);
      Put(buffer, strPos, s[i], Slice(s, start, i));
      return false;
    }
    if i == inputLen {
      ValueRunsOut(s, i, start, text, done);
      Put(buffer, strPos, s[i], Slice(s, start, i));
      BufferedText(buffer, Slice(s, start, i + 1));
    } else {
      ValueEnds(s, i, start, text, done);
      BufferedText(buffer, Slice(s, start, i));
    }
    complete := true;
  }

  // ---------- The torrent ----------

  /** How a parse ends: in success, with the map full, by following a NULL, or not at all. */
  datatype ParseResult = Parsed | Failed | Fault | Stuck

  class Torrent {
    var name: CString
    var hash: CString
    var trackers: Linkedlist<Tracker>
    var connectedTrackers: nat
    // What the network and rand() hold in store for each tracker.
    const world: nat -> nat -> Input

    ghost predicate Made(tracker: Tracker, address: CString)
      reads tracker
    {
      && AddressOk(address)
      && tracker.url == Host(address) && tracker.port == Port(address)
      && tracker.State() == Session(false, 0, 0, 0, 0, [])
    }

    /** The list holds one new tracker for each address, in order. */
    ghost predicate Tracked(addresses: seq<CString>)
      reads this`trackers, trackers, trackers.Repr, trackers.Contents
    {
      && trackers.Valid()
      && |trackers.Contents| == |addresses|
      && (forall i | 0 <= i < |addresses| ::
            Made(trackers.Contents[i], addresses[i]) && trackers.Contents[i] as object !in trackers.Repr)
      && (forall i, j | 0 <= i < j < |addresses| :: trackers.Contents[i] != trackers.Contents[j])
    }

    /** The torrent's parts and the hash map share no objects. */
    ghost predicate Apart(hashmap: Hashmap<CString>)
      reads this`trackers, trackers, hashmap
    {
      && hashmap.Repr !! trackers.Repr
      && this as object !in hashmap.Repr && this as object !in trackers.Repr
      && forall t | t in trackers.Contents :: t as object !in hashmap.Repr
    }

    constructor (world: nat -> nat -> Input)
      ensures fresh(trackers) && fresh(trackers.Repr) && this.world == world
      ensures Tracked([])
    {
      name, hash, connectedTrackers := [], [], 0;
      trackers := new Linkedlist<Tracker>();
      this.world := world;
    }

    method AddTracker(address: CString, ghost addresses: seq<CString>)
      requires Tracked(addresses) && AddressOk(address) && this as object !in trackers.Repr
      modifies trackers.Repr
      ensures trackers == old(trackers) && fresh(trackers.Repr - old(trackers.Repr))
      ensures Tracked(addresses + [address])
      ensures |trackers.Contents| == |addresses| + 1 && fresh(trackers.Contents[|addresses|])
      ensures trackers.Contents[..|addresses|] == old(trackers.Contents)
    {
      hide AddressOk, Host, Port;
      var tracker := new Tracker(address, world(trackers.count));
      ghost var before := trackers.Contents;
      trackers.Append(tracker);
      forall i | 0 <= i < |addresses| + 1
        ensures Made(trackers.Contents[i], (addresses + [address])[i])
        ensures trackers.Contents[i] as object !in trackers.Repr
      {
        if i < |addresses| {
          assert trackers.Contents[i] == before[i];
          assert old(Made(before[i], addresses[i]));
        }
      }
    }

    method AddOther(hashmap: Hashmap<CString>, key: CString, value: CString, ghost addresses: seq<CString>)
        returns (ok: bool)
      requires Tracked(addresses) && Apart(hashmap) && hashmap.Valid()
      modifies hashmap.Repr
      ensures trackers == old(trackers) && Tracked(addresses) && Apart(hashmap)
      ensures trackers.Repr == old(trackers.Repr) && trackers.Contents == old(trackers.Contents)
      ensures hashmap.Valid() && fresh(hashmap.Repr - old(hashmap.Repr))
      ensures ok <==> SlotsUsed(old(hashmap.Log), SLOTS) < SLOTS
      ensures hashmap.Log == old(hashmap.Log) + if ok then [(key, value)] else []
    {
      hide AddressOk, Host, Port, Hashmap<CString>.Valid;
      assert forall i | 0 <= i < |addresses| :: trackers.Contents[i] in trackers.Contents;
      ok := hashmap.Set(key, value);
      assert trackers.Valid();
      assert forall i | 0 <= i < |addresses| :: Made(trackers.Contents[i], addresses[i]);
    }

    /** Stores a pair that is complete. */
    method Store(hashmap: Hashmap<CString>, key: CString, value: CString, ghost done: seq<Binding>)
        returns (ok: bool)
      requires Tracked(TrackerValues(done)) && Apart(hashmap)
      requires hashmap.Valid() && hashmap.Log == Others(done)
      requires key == TR ==> AddressOk(value)
      modifies hashmap.Repr, trackers.Repr
      ensures trackers == old(trackers)
      ensures hashmap.Valid() && Apart(hashmap)
      ensures fresh(hashmap.Repr - old(hashmap.Repr)) && fresh(trackers.Repr - old(trackers.Repr))
      ensures forall t | t in trackers.Contents :: t in old(trackers.Contents) || fresh(t)
      ensures ok <==> key == TR || SlotsUsed(Others(done), SLOTS) < SLOTS
      ensures ok ==> Tracked(TrackerValues(done + [(key, value)]))
      ensures ok ==> hashmap.Log == Others(done + [(key, value)])
    {
      hide AddressOk, Host, Port, Hashmap<CString>.Valid, Tracked, TrackerValues, Others, SlotsUsed;
      RouteNext(done, (key, value));
      ghost var addresses := TrackerValues(done);
      if key != TR {
        assert addresses + [] == addresses;
        ok := AddOther(hashmap, key, value, addresses);
      } else {
        AddTracker(value, addresses);
        ok := true;
        assert trackers.Contents == trackers.Contents[..|addresses|] + [trackers.Contents[|addresses|]];
      }
    }

    ghost predicate BuffersApart(a: array<Byte>, b: array<Byte>, hashmap: Hashmap<CString>)
      reads this`trackers, trackers, hashmap
    {
      && a != b
      && a !in hashmap.Repr && a !in trackers.Repr
      && b !in hashmap.Repr && b !in trackers.Repr
    }

    /** Stores the pair in the buffers and clears them. */
    method StoreBuffers(hashmap: Hashmap<CString>, keyBuffer: array<Byte>, valueBuffer: array<Byte>,
                        ghost done: seq<Binding>)
        returns (ok: bool)
      requires Tracked(TrackerValues(done)) && Apart(hashmap)
      requires hashmap.Valid() && hashmap.Log == Others(done)
      requires keyBuffer.Length == valueBuffer.Length == 256
      requires BuffersApart(keyBuffer, valueBuffer, hashmap)
      requires CStr(keyBuffer[..]) == TR ==> AddressOk(CStr(valueBuffer[..]))
      modifies hashmap.Repr, trackers.Repr, keyBuffer, valueBuffer
      ensures trackers == old(trackers)
      ensures hashmap.Valid() && Apart(hashmap) && BuffersApart(keyBuffer, valueBuffer, hashmap)
      ensures fresh(hashmap.Repr - old(hashmap.Repr)) && fresh(trackers.Repr - old(trackers.Repr))
      ensures forall t | t in trackers.Contents :: t in old(trackers.Contents) || fresh(t)
      ensures ok <==> old(CStr(keyBuffer[..])) == TR || SlotsUsed(Others(done), SLOTS) < SLOTS
      ensures ok ==>
                var now := done + [(old(CStr(keyBuffer[..])), old(CStr(valueBuffer[..])))];
                && Tracked(TrackerValues(now)) && hashmap.Log == Others(now)
                && Buffered(keyBuffer, []) && Buffered(valueBuffer, [])
    {
      hide TrackerValues, Others, AddressOk, CStr, NulFree, Tracked, Apart, Buffered, Hashmap<CString>.Valid;
      ok := Store(hashmap, CStr(keyBuffer[..]), CStr(valueBuffer[..]), done);
      if ok {
        Clear(keyBuffer);
        Clear(valueBuffer);
        EmptyBuffer(keyBuffer);
        EmptyBuffer(valueBuffer);
      }
    }

    /** The loop over the characters. */
    method ReadPairs(subString: CString, hashmap: Hashmap<CString>) returns (ok: bool)
      requires PartsFit(subString)
      requires forall a | a in TrackerValues(ParsePairs(subString)) :: AddressOk(a)
      requires Tracked([]) && hashmap.Valid() && hashmap.Log == [] && Apart(hashmap)
      modifies hashmap.Repr, trackers.Repr
      ensures trackers == old(trackers) && hashmap.Valid() && Apart(hashmap)
      ensures fresh(trackers.Repr - old(trackers.Repr))
      ensures forall t | t in trackers.Contents :: t in old(trackers.Contents) || fresh(t)
      ensures ok <==> AllStored(Others(ParsePairs(subString)))
      ensures ok ==> Tracked(TrackerValues(ParsePairs(subString)))
      ensures ok ==> hashmap.Log == Others(ParsePairs(subString))
    {
      hide Reading, PartsFit, ValueFits, ParsePairs, ParseValue, TrackerValues, Others, SlotsUsed,
           AllStored, AddressOk,
           CStr, NulFree, Tracked, Apart, Hashmap<CString>.Valid, Buffered, Slice;
      var keyBuffer := new Byte[256](i => 0);
      var valueBuffer := new Byte[256](i => 0);
      var key, strPos, i := true, 0, 0;
      ghost var start: nat, keyText, done := 0, Slice(subString, 0, 0), [];
      RouteNothing();
      FewAreStored(Others([]));
      ReadingStarts(subString);
      EmptyBuffer(keyBuffer);
      EmptyBuffer(valueBuffer);
      while CharAt(subString, i) != 0
        invariant i <= |subString|
        invariant trackers == old(trackers) && hashmap.Valid() && Apart(hashmap)
        invariant fresh(hashmap.Repr - old(hashmap.Repr)) && fresh(trackers.Repr - old(trackers.Repr))
        invariant forall t | t in trackers.Contents :: t in old(trackers.Contents) || fresh(t)
        invariant fresh(keyBuffer) && fresh(valueBuffer)
        invariant BuffersApart(keyBuffer, valueBuffer, hashmap)
        invariant Tracked(TrackerValues(done)) && hashmap.Log == Others(done)
        invariant AllStored(Others(done))
        invariant Reading(subString, i, key, start, keyText, done)
        invariant i < |subString| ==> start <= i && strPos == i - start
        invariant i < |subString| && key ==>
                    Buffered(keyBuffer, Slice(subString, start, i)) && Buffered(valueBuffer, [])
        invariant i < |subString| && !key ==>
                    && Buffered(keyBuffer, keyText) && |keyText| <= 255
                    && Buffered(valueBuffer, Slice(subString, start, i))
        decreases |subString| - i
      {
        if key {
          key, strPos, start, keyText :=
            ReadKeyByte(subString, i, strPos, keyBuffer, start, keyText, done);
        } else {
          var complete := ReadValueByte(subString, i, strPos, valueBuffer, start, keyText, done);
          if complete {
            BufferedText(keyBuffer, keyText);
            ghost var pair := (keyText, CStr(valueBuffer[..]));
            PairRead(subString, i + 1, i + 1, keyText, done, pair);
            ok := StoreBuffers(hashmap, keyBuffer, valueBuffer, done);
            if !ok {
              return false;
            }
            key, strPos := true, 0;
            start, done := i + 1, done + [pair];
          } else {
            strPos := strPos + 1;
          }
        }
        NothingYet(subString, i + 1);
        i := i + 1;
      }
      AllRead(subString, key, start, keyText, done);
      ok := true;
    }

    /** Reads the link in a file's content: it starts after eight bytes, "magnet:?". */
    method Parse(content: seq<Byte>) returns (r: ParseResult)
      requires |content| >= 8
      requires PartsFit(CStr(content[8..]))
      requires forall a | a in TrackerValues(ParsePairs(CStr(content[8..]))) :: AddressOk(a)
      modifies this
      ensures fresh(trackers) && fresh(trackers.Repr) && fresh(trackers.Contents)
      ensures var pairs := ParsePairs(CStr(content[8..]));
              && (r.Failed? <==> !AllStored(Others(pairs)))
              && (!r.Failed? ==> r == Ending(Others(pairs)) && Tracked(TrackerValues(pairs)))
              && (r.Parsed? ==>
                    && name == CStr(UrlDecoded(Lookup(Others(pairs), DN).value))
                    && hash == Lookup(Others(pairs), XT).value)
    {
      hide PartsFit, ParsePairs, TrackerValues, Others, AddressOk, CStr, NulFree,
           Hashmap<CString>.Valid, Lookup, Answered, UrlDecoded, Tracked, Apart, AllStored;
      var subString := CStr(content[8..]);
      var hashmap := new Hashmap<CString>();
      trackers := new Linkedlist<Tracker>();
      assert Tracked([]) && Apart(hashmap) by { StartsApart(hashmap); }
      var ok := ReadPairs(subString, hashmap);
      assert forall i | 0 <= i < |trackers.Contents| :: trackers.Contents[i] in trackers.Contents;
      if !ok {
        return Failed;
      }
      ghost var addresses := TrackerValues(ParsePairs(subString));
      r := CopyNames(hashmap, addresses);
    }

    lemma StartsApart(hashmap: Hashmap<CString>)
      requires trackers.Valid() && trackers.Contents == [] && trackers.Repr !! hashmap.Repr
      requires this as object !in trackers.Repr && this as object !in hashmap.Repr
      ensures Tracked([]) && Apart(hashmap)
    {
    }

    /** Copies the name and the hash out of the map. */
    method CopyNames(hashmap: Hashmap<CString>, ghost addresses: seq<CString>) returns (r: ParseResult)
      requires hashmap.Valid() && Apart(hashmap) && Tracked(addresses)
      modifies this`name, this`hash
      ensures Tracked(addresses)
      ensures r == Ending(hashmap.Log)
      ensures r.Parsed? ==>
                && name == CStr(UrlDecoded(Lookup(hashmap.Log, DN).value))
                && hash == Lookup(hashmap.Log, XT).value
    {
      hide CStr, NulFree, Hashmap<CString>.Valid, Lookup, Answered, UrlDecoded;
      var dn := hashmap.Get(DN);
      if dn.Hangs? {
        return Stuck;
      }
      if dn.value.None? {
        return Fault;
      }
      var text, n := UrlDecode(dn.value.value);
      name := CStr(text[..]);
      var xt := hashmap.Get(XT);
      if xt.Hangs? {
        return Stuck;
      }
      if xt.value.None? {
        return Fault;
      }
      hash := xt.value.value;
      r := Parsed;
    }

    /** The trackers are separate objects, apart from the list that holds them. */
    ghost predicate Separate()
      reads this`trackers, trackers, trackers.Repr, trackers.Contents
    {
      && trackers.Valid() && this as object !in trackers.Repr
      && (forall i | 0 <= i < |trackers.Contents| ::
            trackers.Contents[i].Valid() && trackers.Contents[i] as object !in trackers.Repr)
      && (forall i, j | 0 <= i < j < |trackers.Contents| ::
            trackers.Contents[i] != trackers.Contents[j])
    }

    lemma TrackedSeparate(addresses: seq<CString>)
      requires Tracked(addresses) && this as object !in trackers.Repr
      ensures Separate()
    {
    }

    /** Connects one tracker; the others stay as they are. */
    method ConnectOne(tracker: Tracker, ghost k: nat) returns (ok: bool)
      requires Separate() && k < |trackers.Contents| && tracker == trackers.Contents[k]
      modifies tracker
      ensures Separate() && trackers.Contents == old(trackers.Contents)
      ensures trackers.Nodes == old(trackers.Nodes)
      ensures ConnectSpec(tracker.inputs, old(tracker.State()), tracker.State(), ok)
      ensures StatesOf(trackers.Contents) == old(StatesOf(trackers.Contents))[k := tracker.State()]
    {
      hide ConnectSpec;
      ok := tracker.Connect();
      assert forall i | 0 <= i < |trackers.Contents| && i != k ::
          trackers.Contents[i].State() == old(trackers.Contents[i].State());
    }

    /** The node that holds tracker `k`, or NULL after the last one. */
    lemma NodeOf(k: nat)
      requires Separate() && k <= |trackers.Contents|
      ensures |trackers.Nodes| == |trackers.Contents| && this as object !in trackers.Repr
      ensures trackers.head == if trackers.Nodes == [] then null else trackers.Nodes[0]
      ensures k < |trackers.Nodes| ==>
                && trackers.Nodes[k].value == trackers.Contents[k]
                && trackers.Nodes[k].next == if k + 1 < |trackers.Nodes| then trackers.Nodes[k + 1] else null
    {
    }

    /** Connects every tracker once and counts the ones that accept. */
    method Connect() returns (ghost oks: seq<bool>)
      requires Separate()
      modifies this`connectedTrackers, trackers.Contents
      ensures Separate() && trackers.Contents == old(trackers.Contents)
      ensures |oks| == |trackers.Contents| && connectedTrackers == Successes(oks)
      ensures Tried(trackers.Contents, Connecting, old(StatesOf(trackers.Contents)),
                    StatesOf(trackers.Contents), oks)
    {
      hide ConnectSpec, Tried, Separate;
      NodeOf(0);
      oks := [];
      connectedTrackers := 0;
      var curr := trackers.head;
      NothingTried(trackers.Contents, Connecting, StatesOf(trackers.Contents));
      while curr != null
        invariant |oks| <= |trackers.Contents| == |trackers.Nodes|
        invariant curr == if |oks| < |trackers.Nodes| then trackers.Nodes[|oks|] else null
        invariant Separate() && trackers.Contents == old(trackers.Contents)
        invariant connectedTrackers == Successes(oks)
        invariant Tried(trackers.Contents, Connecting, old(StatesOf(trackers.Contents)),
                        StatesOf(trackers.Contents), oks)
        decreases |trackers.Contents| - |oks|
      {
        ghost var now := StatesOf(trackers.Contents);
        NodeOf(|oks|);
        var tracker := curr.value;
        var ok := ConnectOne(tracker, |oks|);
        if ok {
          connectedTrackers := connectedTrackers + 1;
        }
        TriedNext(trackers.Contents, Connecting, old(StatesOf(trackers.Contents)), now, oks,
                  tracker.State(), ok);
        assert (oks + [ok])[..|oks|] == oks;
        oks := oks + [ok];
        curr := curr.next;
      }
    }

    /** Announces to one tracker; the others stay as they are. */
    method AnnounceOne(tracker: Tracker, ghost k: nat) returns (ok: bool)
      requires Separate() && k < |trackers.Contents| && tracker == trackers.Contents[k]
      requires tracker.connected ==> HashOk(hash)
      modifies tracker
      ensures Separate() && trackers.Contents == old(trackers.Contents)
      ensures trackers.Nodes == old(trackers.Nodes)
      ensures AnnounceSpec(tracker.inputs, old(tracker.State()), tracker.State(), InfoHash(hash), ok)
      ensures tracker.connected == old(tracker.connected)
      ensures StatesOf(trackers.Contents) == old(StatesOf(trackers.Contents))[k := tracker.State()]
    {
      hide HashOk;
      ok := tracker.Announce(hash);
      assert forall i | 0 <= i < |trackers.Contents| && i != k ::
          trackers.Contents[i].State() == old(trackers.Contents[i].State());
    }

    /** Announces to every tracker once; the results are not looked at. */
    method Announce() returns (ghost oks: seq<bool>)
      requires Separate()
      requires HashOk(hash) || forall i | 0 <= i < |trackers.Contents| :: !trackers.Contents[i].connected
      modifies trackers.Contents
      ensures Separate() && trackers.Contents == old(trackers.Contents)
      ensures |oks| == |trackers.Contents|
      ensures Tried(trackers.Contents, Announcing(InfoHash(hash)), old(StatesOf(trackers.Contents)),
                    StatesOf(trackers.Contents), oks)
    {
      hide AnnounceSpec, Tried, Separate, HashOk;
      NodeOf(0);
      oks := [];
      var curr := trackers.head;
      NothingTried(trackers.Contents, Announcing(InfoHash(hash)), StatesOf(trackers.Contents));
      while curr != null
        invariant |oks| <= |trackers.Contents| == |trackers.Nodes|
        invariant curr == if |oks| < |trackers.Nodes| then trackers.Nodes[|oks|] else null
        invariant Separate() && trackers.Contents == old(trackers.Contents)
        invariant HashOk(hash) ||
                  forall i | 0 <= i < |trackers.Contents| :: !StatesOf(trackers.Contents)[i].connected
        invariant Tried(trackers.Contents, Announcing(InfoHash(hash)), old(StatesOf(trackers.Contents)),
                        StatesOf(trackers.Contents), oks)
        decreases |trackers.Contents| - |oks|
      {
        ghost var now := StatesOf(trackers.Contents);
        NodeOf(|oks|);
        var tracker := curr.value;
        var ok := AnnounceOne(tracker, |oks|);
        TriedNext(trackers.Contents, Announcing(InfoHash(hash)), old(StatesOf(trackers.Contents)), now, oks,
                  tracker.State(), ok);
        oks := oks + [ok];
        curr := curr.next;
      }
    }
  }

  ghost function StatesOf(trackers: seq<Tracker>): (states: seq<Session>)
    reads trackers
    ensures |states| == |trackers|
    ensures forall i | 0 <= i < |trackers| :: states[i] == trackers[i].State()
  {
    seq(|trackers|, i requires 0 <= i < |trackers| reads trackers => trackers[i].State())
  }

  /** The first trackers have taken the call with these results; the others not yet. */
  ghost predicate Tried(trackers: seq<Tracker>, call: Call, before: seq<Session>, after: seq<Session>,
                        oks: seq<bool>) {
    && |oks| <= |trackers| == |before| == |after|
    && (forall i | 0 <= i < |oks| :: CallSpec(trackers[i].inputs, before[i], after[i], call, oks[i]))
    && (forall i | |oks| <= i < |before| :: after[i] == before[i])
  }

  lemma NothingTried(trackers: seq<Tracker>, call: Call, before: seq<Session>)
    requires |trackers| == |before|
    ensures Tried(trackers, call, before, before, [])
  {
  }

  lemma TriedNext(trackers: seq<Tracker>, call: Call, before: seq<Session>, after: seq<Session>,
                  oks: seq<bool>, next: Session, ok: bool)
    requires |oks| < |trackers| && Tried(trackers, call, before, after, oks)
    requires CallSpec(trackers[|oks|].inputs, after[|oks|], next, call, ok)
    ensures Tried(trackers, call, before, after[|oks| := next], oks + [ok])
  {
    hide CallSpec;
  }

  /** Calls on all trackers keep each one's session in order, so every announce any of them
      sends carries the id of its own latest accepted connect. */
  lemma AllTrackersSafe(trackers: seq<Tracker>, call: Call, before: seq<Session>, after: seq<Session>,
                        oks: seq<bool>)
    requires Tried(trackers, call, before, after, oks) && |oks| == |trackers|
    requires forall i | 0 <= i < |before| :: SessionInv(before[i])
    ensures forall i | 0 <= i < |after| :: SessionInv(after[i])
  {
    hide CallSpec, SessionInv;
    forall i | 0 <= i < |after|
      ensures SessionInv(after[i])
    {
      CallKeeps(trackers[i].inputs, before[i], after[i], call, oks[i]);
    }
  }

  lemma AllTrackersCarry(trackers: seq<Tracker>, call: Call, before: seq<Session>, after: seq<Session>,
                         oks: seq<bool>, h: CString)
    requires Tried(trackers, call, before, after, oks) && |oks| == |trackers|
    requires call.Announcing? ==> call.infoHash == h
    requires forall i | 0 <= i < |before| :: CarriesHash(before[i].history, h)
    ensures forall i | 0 <= i < |after| :: CarriesHash(after[i].history, h)
  {
    hide CallSpec, CarriesHash;
    forall i | 0 <= i < |after|
      ensures CarriesHash(after[i].history, h)
    {
      CallCarries(trackers[i].inputs, before[i], after[i], call, oks[i], h);
    }
  }

  /** The successes are the true results. */
  lemma {:induction false} SuccessesCount(oks: seq<bool>)
    ensures Successes(oks) == |set i | 0 <= i < |oks| && oks[i]|
  {
    var yes := set i | 0 <= i < |oks| && oks[i];
    if oks == [] {
      assert yes == {};
    } else {
      var n := |oks| - 1;
      SuccessesCount(oks[..n]);
      var before := set i | 0 <= i < |oks[..n]| && oks[..n][i];
      assert yes == if oks[n] then before + {n} else before;
    }
  }

  function Successes(oks: seq<bool>): nat {
    if oks == [] then 0
    else Successes(oks[..|oks| - 1]) + if oks[|oks| - 1] then 1 else 0
  }

  /** When no other key shares their slots, a link is parsed to its end exactly if it has both a
      name and a hash; a link that lacks one follows a NULL. */
  lemma EndingOfLink(log: seq<Binding>)
    requires forall b | b in log && Slot(b.0) == Slot(DN) :: b.0 == DN
    requires forall b | b in log && Slot(b.0) == Slot(XT) :: b.0 == XT
    ensures Ending(log) ==
            if (exists b :: b in log && b.0 == DN) && (exists b :: b in log && b.0 == XT) then Parsed
            else Fault
  {
    hide Lookup, Answered, Slot;
    AloneIsAnswered(log, DN);
    AloneIsAnswered(log, XT);
    BoundIff(log, DN);
    BoundIff(log, XT);
  }

  lemma BoundIff(log: seq<Binding>, key: CString)
    ensures Lookup(log, key).Some? <==> exists b :: b in log && b.0 == key
  {
    hide Lookup;
    LookupIsFirst(log, key);
    if b :| b in log && b.0 == key {
      var i :| 0 <= i < |log| && log[i] == b;
    }
  }

  /** A link in which "qym", which shares the slot of "dn", comes before the name is never parsed
      to its end. */
  lemma EndingStuck(value: CString, name: CString, more: seq<Binding>)
    ensures NulFree([0x71, 0x79, 0x6d])
    ensures Ending([([0x71, 0x79, 0x6d], value)] + [(DN, name)] + more) == Stuck
  {
    hide Lookup, InSlot, Slot;
    var qym: CString := [0x71, 0x79, 0x6d];
    SharedSlot();
    InSlotSnoc([], (qym, value), Slot(DN));
    assert [] + [(qym, value)] == [(qym, value)];
    NoChain(Slot(DN));
    TakenSlotLoses([(qym, value)], DN, name, more);
  }

  lemma NoChain(i: nat)
    ensures InSlot<CString>([], i) == []
  {
  }

  lemma SharedSlot()
    ensures Slot([0x71, 0x79, 0x6d]) == Slot(DN) == 3631
  {
    HashesOfKeys();
    KeyWords();
    HashOfQym();
    QymWord();
  }

  /** How reading the name and then the hash out of the map ends. */
  function Ending(log: seq<Binding>): ParseResult {
    if !Answered(log, DN) then Stuck
    else if Lookup(log, DN).None? then Fault
    else if !Answered(log, XT) then Stuck
    else if Lookup(log, XT).None? then Fault
    else Parsed
  }

  /** Any rounds of connects and announces to the trackers of a written link whose hash text is
      "urn:btih:h": every announce any tracker sends carries h, and the connection id of that
      tracker's latest accepted connect. */
  method AnnounceWritten(link: Link, h: CString, header: seq<Byte>, world: nat -> nat -> Input,
                         rounds: seq<bool>)
      returns (t: Torrent)
    requires LinkOk(link) && |header| == 8
    requires 0x3a !in h && link.xt == URN + h
    ensures |t.trackers.Contents| == |link.trackers|
    ensures forall i | 0 <= i < |link.trackers| ::
              && SessionInv(t.trackers.Contents[i].State())
              && CarriesHash(t.trackers.Contents[i].History, h)
  {
    hide LinkOk, SessionInv, CarriesHash, HashOk, Announcers, Torrent.Separate;
    HashFits(link, h);
    InfoHashOfUrn(h);
    t := ParseWritten(link, header, world);
    NewSessions(t, h);
    var k := 0;
    while k < |rounds|
      invariant 0 <= k <= |rounds|
      invariant fresh(t) && fresh(t.trackers.Contents)
      invariant t.Separate() && |t.trackers.Contents| == |link.trackers|
      invariant t.hash == URN + h && Announcers(StatesOf(t.trackers.Contents), h)
    {
      Round(t, rounds[k], h);
      k := k + 1;
    }
    StatesAt(t, h);
  }

  /** Every session is in order and has announced nothing but `h`. */
  ghost predicate Announcers(states: seq<Session>, h: CString) {
    forall i | 0 <= i < |states| :: SessionInv(states[i]) && CarriesHash(states[i].history, h)
  }

  method Round(t: Torrent, connect: bool, h: CString)
    requires t.Separate() && t.hash == URN + h && Announcers(StatesOf(t.trackers.Contents), h)
    requires HashOk(URN + h) && InfoHash(URN + h) == h
    modifies t`connectedTrackers, t.trackers.Contents
    ensures t.Separate() && t.trackers.Contents == old(t.trackers.Contents)
    ensures Announcers(StatesOf(t.trackers.Contents), h)
  {
    hide SessionInv, CarriesHash, HashOk, InfoHash, Tried, Torrent.Separate;
    ghost var before := StatesOf(t.trackers.Contents);
    ghost var oks;
    ghost var call := if connect then Connecting else Announcing(h);
    if connect {
      oks := t.Connect();
    } else {
      oks := t.Announce();
    }
    AllTrackersSafe(t.trackers.Contents, call, before, StatesOf(t.trackers.Contents), oks);
    AllTrackersCarry(t.trackers.Contents, call, before, StatesOf(t.trackers.Contents), oks, h);
  }

  lemma StatesAt(t: Torrent, h: CString)
    requires Announcers(StatesOf(t.trackers.Contents), h)
    ensures forall i | 0 <= i < |t.trackers.Contents| ::
              && SessionInv(t.trackers.Contents[i].State())
              && CarriesHash(t.trackers.Contents[i].History, h)
  {
    forall i | 0 <= i < |t.trackers.Contents|
      ensures SessionInv(t.trackers.Contents[i].State())
      ensures CarriesHash(t.trackers.Contents[i].History, h)
    {
      assert StatesOf(t.trackers.Contents)[i] == t.trackers.Contents[i].State();
    }
  }

  lemma HashFits(link: Link, h: CString)
    requires LinkOk(link) && link.xt == URN + h
    ensures |h| <= 255
  {
  }

  lemma NewSessions(t: Torrent, h: CString)
    requires forall i | 0 <= i < |t.trackers.Contents| ::
               t.trackers.Contents[i].State() == Session(false, 0, 0, 0, 0, [])
    ensures Announcers(StatesOf(t.trackers.Contents), h)
  {
    NewSession();
  }

  /** Writing a link and parsing the file gives the torrent the link describes. */
  method ParseWritten(link: Link, header: seq<Byte>, world: nat -> nat -> Input) returns (t: Torrent)
    requires LinkOk(link) && |header| == 8
    ensures fresh(t) && fresh(t.trackers.Contents)
    ensures t.name == link.name && t.hash == link.xt
    ensures t.Separate() && |t.trackers.Contents| == |link.trackers|
    ensures forall i | 0 <= i < |link.trackers| ::
              && t.trackers.Contents[i].url == link.trackers[i].0
              && t.trackers.Contents[i].port == link.trackers[i].1
              && t.trackers.Contents[i].State() == Session(false, 0, 0, 0, 0, [])
  {
    hide PartsFit, ParsePairs, TrackerValues, Others, AddressOk, CStr, NulFree, LinkText, LinkPairs,
         Lookup, Answered, UrlDecoded, Host, Port;
    t := new Torrent(world);
    var text := LinkText(LinkPairs(link));
    WrittenLinkReads(link);
    CStrTerminated(text, []);
    assert (header + text)[8..] == text;
    ghost var values := TrackerValues(ParsePairs(text));
    forall a | a in values
      ensures AddressOk(a)
    {
      var i :| 0 <= i < |values| && values[i] == a;
    }
    var r := t.Parse(header + text);
    assert t.Tracked(values);
    t.TrackedSeparate(values);
    assert forall i | 0 <= i < |link.trackers| :: t.Made(t.trackers.Contents[i], values[i]);
  }
}
