/** The text of a magnet link after its first eight bytes: key=value pairs joined by '&'. */
module Magnet {
  import opened Bytes
  import opened StringUtils
  import JenkinsHash
  import opened Hashmaps
  import opened Trackers

  type Binding = (CString, CString)

  // ---------- What the link means ----------

  /** Where the reader stops: at the first `c`, or at the last byte whatever it is. */
  function Stop(s: seq<Byte>, c: Byte): (k: nat)
    requires s != []
    ensures k < |s| && c !in s[..k]
    ensures k < |s| - 1 ==> s[k] == c
  {
    if |s| == 1 || s[0] == c then 0 else Stop(s[1..], c) + 1
  }

  function Slice(s: CString, from: nat, to: nat): CString
    requires from <= to <= |s|
  {
    s[from..to]
  }

  /** A key that is still open at the last byte binds nothing. */
  function ParsePairs(s: CString): seq<Binding>
    decreases |s|
  {
    if s == [] then []
    else
      var k := Stop(s, EQUALS);
      if k == |s| - 1 then [] else ParseValue(Slice(s, 0, k), Slice(s, k + 1, |s|))
  }

  /** A value that is still open at the last byte includes that byte. */
  function ParseValue(key: CString, s: CString): seq<Binding>
    requires s != []
    decreases |s|
  {
    var v := Stop(s, AMPERSAND);
    if v == |s| - 1 then [(key, s)]
    else [(key, Slice(s, 0, v))] + ParsePairs(Slice(s, v + 1, |s|))
  }

  /** Every key and value leaves room for its terminator in a 256-byte buffer; a key that is
      never bound only has to fit. */
  predicate PartsFit(s: CString)
    decreases |s|
  {
    s != [] ==>
      var k := Stop(s, EQUALS);
      if k == |s| - 1 then |s| <= 256 else k <= 255 && ValueFits(Slice(s, k + 1, |s|))
  }

  predicate ValueFits(s: CString)
    requires s != []
    decreases |s|
  {
    var v := Stop(s, AMPERSAND);
    if v == |s| - 1 then |s| <= 255 else v <= 255 && PartsFit(Slice(s, v + 1, |s|))
  }

  // ---------- Writing a link ----------

  function PairText(p: Binding): CString {
    p.0 + [EQUALS] + p.1
  }

  function LinkText(pairs: seq<Binding>): CString {
    if pairs == [] then []
    else if |pairs| == 1 then PairText(pairs[0])
    else PairText(pairs[0]) + [AMPERSAND] + LinkText(pairs[1..])
  }

  /** Which pairs survive being written and read: no '=' in a key, no '&' in a value, and the
      last value not empty. Only a last byte that is '&' does no harm. */
  predicate Readable(pairs: seq<Binding>) {
    forall i | 0 <= i < |pairs| ::
      && EQUALS !in pairs[i].0
      && if i < |pairs| - 1 then AMPERSAND !in pairs[i].1
         else pairs[i].1 != [] && AMPERSAND !in pairs[i].1[..|pairs[i].1| - 1]
  }

  lemma {:induction false} StopAt(s: seq<Byte>, c: Byte, k: nat)
    requires k < |s| && c !in s[..k] && (k < |s| - 1 ==> s[k] == c)
    ensures Stop(s, c) == k
  {
    if k > 0 {
      assert s[0] == s[..k][0];
      assert s[1..][..k - 1] == s[..k][1..];
      StopAt(s[1..], c, k - 1);
    }
  }

  // ---------- Reading what was written ----------

  /** A key without '=' is read whole; any other key is read too short. */
  lemma ParseKey(key: CString, r: CString)
    requires NulFree(key + [EQUALS] + r)
    ensures EQUALS !in key && r != [] ==> ParsePairs(key + [EQUALS] + r) == ParseValue(key, r)
    ensures EQUALS in key ==>
              var ps := ParsePairs(key + [EQUALS] + r);
              ps == [] || ps[0].0 != key
  {
    hide NulFree;
    var s := key + [EQUALS] + r;
    assert s[..|key|] == Slice(s, 0, |key|) == key && Slice(s, |key| + 1, |s|) == r;
    if EQUALS !in key {
      StopAt(s, EQUALS, |key|);
    } else {
      var j :| 0 <= j < |key| && key[j] == EQUALS;
      assert s[j] == EQUALS;
      assert Stop(s, EQUALS) <= j;
    }
  }

  /** A key that ends the text binds nothing. */
  lemma ParseOpenKey(key: CString)
    requires EQUALS !in key && NulFree(key + [EQUALS])
    ensures ParsePairs(key + [EQUALS]) == []
  {
    hide NulFree;
    var s := key + [EQUALS];
    assert s[..|key|] == key;
    StopAt(s, EQUALS, |key|);
  }

  lemma ParseLastValue(key: CString, value: CString)
    requires value != []
    ensures ParseValue(key, value) == [(key, value)] <==> AMPERSAND !in value[..|value| - 1]
  {
    hide NulFree;
    if AMPERSAND !in value[..|value| - 1] {
      StopAt(value, AMPERSAND, |value| - 1);
    } else {
      var j :| 0 <= j < |value| - 1 && value[j] == AMPERSAND;
      assert Stop(value, AMPERSAND) <= j;
      assert |ParseValue(key, value)[0].1| < |value|;
    }
  }

  lemma ParseNextValue(key: CString, value: CString, rest: CString)
    requires rest != [] && NulFree(value + [AMPERSAND] + rest)
    ensures var ps := ParseValue(key, value + [AMPERSAND] + rest);
            if AMPERSAND !in value then ps == [(key, value)] + ParsePairs(rest)
            else ps == [] || ps[0] != (key, value)
  {
    hide NulFree;
    var s := value + [AMPERSAND] + rest;
    assert s[..|value|] == Slice(s, 0, |value|) == value && Slice(s, |value| + 1, |s|) == rest;
    if AMPERSAND !in value {
      StopAt(s, AMPERSAND, |value|);
    } else {
      var j :| 0 <= j < |value| && value[j] == AMPERSAND;
      assert s[j] == AMPERSAND;
      assert Stop(s, AMPERSAND) <= j;
      assert |ParseValue(key, s)[0].1| < |value|;
    }
  }

  /** A link is read back as the pairs it was written from if and only if they are readable. */
  lemma {:induction false} LinkRoundTrip(pairs: seq<Binding>)
    ensures ParsePairs(LinkText(pairs)) == pairs <==> Readable(pairs)
  {
    hide ParsePairs, ParseValue;
    if pairs == [] {
      NothingToParse();
    } else {
      var (key, value) := pairs[0];
      if |pairs| == 1 {
        if value == [] {
          assert PairText(pairs[0]) == key + [EQUALS];
          LoneKey(key);
        } else {
          ParseKey(key, value);
          ParseLastValue(key, value);
          assert pairs == [(key, value)];
        }
      } else {
        var rest := LinkText(pairs[1..]);
        LinkRoundTrip(pairs[1..]);
        var tail: CString := value + [AMPERSAND] + rest;
        assert LinkText(pairs) == key + [EQUALS] + tail;
        ParseKey(key, tail);
        ParseNextValue(key, value, rest);
        ReadableFirst(pairs);
        assert pairs == [(key, value)] + pairs[1..];
      }
    }
  }

  lemma NothingToParse()
    ensures ParsePairs([]) == []
  {
  }

  lemma LoneKey(key: CString)
    requires NulFree(key + [EQUALS])
    ensures ParsePairs(key + [EQUALS]) != [(key, [])]
  {
    if EQUALS !in key {
      ParseOpenKey(key);
    } else {
      assert key + [EQUALS] + [] == key + [EQUALS];
      ParseKey(key, []);
    }
  }

  lemma ReadableFirst(pairs: seq<Binding>)
    requires |pairs| > 1
    ensures Readable(pairs) <==>
            EQUALS !in pairs[0].0 && AMPERSAND !in pairs[0].1 && Readable(pairs[1..])
  {
    var rest := pairs[1..];
    assert forall i | 0 < i < |pairs| :: pairs[i] == rest[i - 1];
    if Readable(pairs) {
      forall i | 0 <= i < |rest|
        ensures EQUALS !in rest[i].0
        ensures if i < |rest| - 1 then AMPERSAND !in rest[i].1
                else rest[i].1 != [] && AMPERSAND !in rest[i].1[..|rest[i].1| - 1]
      {
        assert rest[i] == pairs[i + 1];
      }
    }
  }

  // ---------- What fits the buffers ----------

  predicate ShortParts(pairs: seq<Binding>) {
    forall i | 0 <= i < |pairs| :: |pairs[i].0| <= 255 && |pairs[i].1| <= 255
  }

  lemma KeyFits(key: CString, r: CString)
    requires EQUALS !in key && r != [] && |key| <= 255 && ValueFits(r)
    requires NulFree(key + [EQUALS] + r)
    ensures PartsFit(key + [EQUALS] + r)
  {
    hide NulFree, ValueFits;
    var s := key + [EQUALS] + r;
    assert s[..|key|] == key && Slice(s, |key| + 1, |s|) == r;
    StopAt(s, EQUALS, |key|);
  }

  lemma NextValueFits(value: CString, rest: CString)
    requires AMPERSAND !in value && rest != [] && |value| <= 255 && PartsFit(rest)
    requires NulFree(value + [AMPERSAND] + rest)
    ensures ValueFits(value + [AMPERSAND] + rest)
  {
    hide NulFree, PartsFit;
    var s := value + [AMPERSAND] + rest;
    assert s[..|value|] == value && Slice(s, |value| + 1, |s|) == rest;
    StopAt(s, AMPERSAND, |value|);
  }

  lemma LastValueFits(value: CString)
    requires value != [] && |value| <= 255 && AMPERSAND !in value[..|value| - 1]
    ensures ValueFits(value)
  {
    hide NulFree;
    StopAt(value, AMPERSAND, |value| - 1);
  }

  lemma {:induction false} LinkFits(pairs: seq<Binding>)
    requires Readable(pairs) && ShortParts(pairs)
    ensures PartsFit(LinkText(pairs))
  {
    hide PartsFit, ValueFits;
    if pairs == [] {
      NothingToFit();
    } else {
      var (key, value) := pairs[0];
      if |pairs| == 1 {
        LastValueFits(value);
        KeyFits(key, value);
      } else {
        var rest := LinkText(pairs[1..]);
        ReadableFirst(pairs);
        LinkFits(pairs[1..]);
        NextValueFits(value, rest);
        var tail: CString := value + [AMPERSAND] + rest;
        assert LinkText(pairs) == key + [EQUALS] + tail;
        KeyFits(key, tail);
      }
    }
  }

  lemma NothingToFit()
    ensures PartsFit([])
  {
  }

  // ---------- Where the pairs go ----------

  /** The keys "tr", "dn" and "xt" */
  const TR: CString := [0x74, 0x72]
  const DN: CString := [0x64, 0x6e]
  const XT: CString := [0x78, 0x74]

  /** The addresses of the trackers, in order. */
  function TrackerValues(pairs: seq<Binding>): seq<CString> {
    if pairs == [] then []
    else TrackerValues(pairs[..|pairs| - 1])
         + if pairs[|pairs| - 1].0 == TR then [pairs[|pairs| - 1].1] else []
  }

  /** The pairs that go into the hash map, in order. */
  function Others(pairs: seq<Binding>): seq<Binding> {
    if pairs == [] then []
    else Others(pairs[..|pairs| - 1])
         + if pairs[|pairs| - 1].0 == TR then [] else [pairs[|pairs| - 1]]
  }

  lemma RouteNext(pairs: seq<Binding>, p: Binding)
    ensures TrackerValues(pairs + [p]) == TrackerValues(pairs) + if p.0 == TR then [p.1] else []
    ensures Others(pairs + [p]) == Others(pairs) + if p.0 == TR then [] else [p]
  {
    assert (pairs + [p])[..|pairs|] == pairs;
  }

  lemma RouteNothing()
    ensures TrackerValues([]) == [] && Others([]) == []
  {
  }

  /** "xt=x&dn=y&tr=z", byte for byte. */
  lemma LinkExample()
    ensures var text := [0x78, 0x74, 0x3d, 0x78, 0x26, 0x64, 0x6e, 0x3d, 0x79, 0x26, 0x74, 0x72, 0x3d, 0x7a];
            && NulFree(text)
            && ParsePairs(text) == [([0x78, 0x74], [0x78]), ([0x64, 0x6e], [0x79]), ([0x74, 0x72], [0x7a])]
            && TrackerValues(ParsePairs(text)) == [[0x7a]]
            && Others(ParsePairs(text)) == [([0x78, 0x74], [0x78]), ([0x64, 0x6e], [0x79])]
  {
    hide ParsePairs, TrackerValues, Others, LinkText, Readable;
    var xt: Binding, dn: Binding, tr: Binding := (XT, [0x78]), (DN, [0x79]), (TR, [0x7a]);
    LinkExampleText();
    ExampleReadable();
    LinkRoundTrip([xt, dn, tr]);
    RouteNothing();
    RouteNext([], xt);
    RouteNext([xt], dn);
    RouteNext([xt, dn], tr);
    assert [] + [xt] == [xt] && [xt] + [dn] == [xt, dn] && [xt, dn] + [tr] == [xt, dn, tr];
  }

  lemma LinkExampleText()
    ensures LinkText([(XT, [0x78]), (DN, [0x79]), (TR, [0x7a])]) ==
            [0x78, 0x74, 0x3d, 0x78, 0x26, 0x64, 0x6e, 0x3d, 0x79, 0x26, 0x74, 0x72, 0x3d, 0x7a]
  {
    var xt: Binding, dn: Binding, tr: Binding := (XT, [0x78]), (DN, [0x79]), (TR, [0x7a]);
    assert [xt, dn, tr][1..] == [dn, tr] && [dn, tr][1..] == [tr];
    assert LinkText([tr]) == [0x74, 0x72, 0x3d, 0x7a];
    assert LinkText([dn, tr]) == [0x64, 0x6e, 0x3d, 0x79, 0x26] + LinkText([tr]);
    assert LinkText([xt, dn, tr]) == [0x78, 0x74, 0x3d, 0x78, 0x26] + LinkText([dn, tr]);
  }

  lemma ExampleReadable()
    ensures Readable([(XT, [0x78]), (DN, [0x79]), (TR, [0x7a])])
  {
  }

  // ---------- A whole link ----------

  datatype Link = Link(xt: CString, name: CString, trackers: seq<(CString, CString)>)

  /** The parts fit the buffers once encoded; a link does not end in an empty value. */
  predicate LinkOk(link: Link) {
    && AMPERSAND !in link.xt && |link.xt| <= 255
    && (link.trackers == [] ==> link.name != []) && |EncodedC(link.name)| <= 255
    && forall i | 0 <= i < |link.trackers| ::
         var (host, port) := link.trackers[i];
         COLON !in host && COLON !in port && |EncodedC(AddressFor(host, port))| <= 255
  }

  function EncodedC(s: seq<Byte>): CString {
    UrlEncodedSafe(s);
    UrlEncoded(s)
  }

  function TrackerPairs(trackers: seq<(CString, CString)>): seq<Binding> {
    if trackers == [] then []
    else
      var (host, port) := trackers[|trackers| - 1];
      TrackerPairs(trackers[..|trackers| - 1]) + [(TR, EncodedC(AddressFor(host, port)))]
  }

  function LinkPairs(link: Link): seq<Binding> {
    [(XT, link.xt), (DN, EncodedC(link.name))] + TrackerPairs(link.trackers)
  }

  lemma {:induction false} TrackerPairsAt(trackers: seq<(CString, CString)>, i: nat)
    requires i < |trackers|
    ensures |TrackerPairs(trackers)| == |trackers|
    ensures TrackerPairs(trackers)[i] ==
            (TR, EncodedC(AddressFor(trackers[i].0, trackers[i].1)))
  {
    hide EncodedC, AddressFor;
    var n := |trackers| - 1;
    if n > 0 {
      TrackerPairsAt(trackers[..n], if i < n then i else 0);
    }
  }

  lemma EncodedLength(s: seq<Byte>)
    ensures |EncodedC(s)| >= |s| && AMPERSAND !in EncodedC(s)
  {
    hide UrlEncoded;
    UrlEncodedSafe(s);
  }

  lemma LinkPairsReadable(link: Link)
    requires LinkOk(link)
    ensures Readable(LinkPairs(link)) && ShortParts(LinkPairs(link))
  {
    hide EncodedC, UrlEncoded, TrackerPairs, AddressFor;
    var pairs := LinkPairs(link);
    EncodedLength(link.name);
    TrackerPairsLength(link.trackers);
    forall i | 2 <= i < |pairs|
      ensures pairs[i].0 == TR && pairs[i].1 != [] && |pairs[i].1| <= 255 && AMPERSAND !in pairs[i].1
    {
      TrackerPairsAt(link.trackers, i - 2);
      var (host, port) := link.trackers[i - 2];
      AddressNotEmpty(host, port);
      EncodedLength(AddressFor(host, port));
    }
  }

  lemma {:induction false} TrackerPairsLength(trackers: seq<(CString, CString)>)
    ensures |TrackerPairs(trackers)| == |trackers|
  {
    if trackers != [] {
      TrackerPairsLength(trackers[..|trackers| - 1]);
    }
  }

  lemma AddressNotEmpty(host: seq<Byte>, port: seq<Byte>)
    ensures |AddressFor(host, port)| == |host| + |port| + 7
  {
  }

  lemma {:induction false} TrackerPairsRoute(link: Link, n: nat)
    requires n <= |link.trackers|
    ensures var pairs := [(XT, link.xt), (DN, EncodedC(link.name))] + TrackerPairs(link.trackers[..n]);
            && Others(pairs) == [(XT, link.xt), (DN, EncodedC(link.name))]
            && |TrackerValues(pairs)| == n
            && forall i | 0 <= i < n ::
                 TrackerValues(pairs)[i] == EncodedC(AddressFor(link.trackers[i].0, link.trackers[i].1))
  {
    hide EncodedC, UrlEncoded, AddressFor, Others, TrackerValues;
    var xt, dn := (XT, link.xt), (DN, EncodedC(link.name));
    var all := link.trackers[..n];
    if n == 0 {
      RouteNothing();
      RouteNext([], xt);
      RouteNext([xt], dn);
      assert [] + [xt] == [xt] && [xt] + [dn] == [xt, dn] + TrackerPairs(all);
    } else {
      TrackerPairsRoute(link, n - 1);
      assert all[..n - 1] == link.trackers[..n - 1];
      var (host, port) := all[n - 1];
      var tr := (TR, EncodedC(AddressFor(host, port)));
      assert TrackerPairs(all) == TrackerPairs(all[..n - 1]) + [tr];
      assert [xt, dn] + TrackerPairs(all) == [xt, dn] + TrackerPairs(all[..n - 1]) + [tr];
      RouteNext([xt, dn] + TrackerPairs(all[..n - 1]), tr);
    }
  }

  lemma KeysApart()
    ensures Slot(XT) != Slot(DN)
  {
    HashesOfKeys();
    KeyWords();
  }

  lemma HashesOfKeys()
    ensures JenkinsHash.Hash(XT) == 3503363656 && JenkinsHash.Hash(DN) == 938573631
  {
    JenkinsHash.HashOfTwo(XT[0], XT[1]);
    JenkinsHash.HashOfTwo(DN[0], DN[1]);
  }

  lemma KeyWords()
    ensures (3503363656 as bv32) as int == 3503363656 && (938573631 as bv32) as int == 938573631
  {
  }

  lemma HashOfQym()
    ensures JenkinsHash.Hash([0x71, 0x79, 0x6d]) == 1972513631
  {
    var qym: seq<Byte> := [0x71, 0x79, 0x6d];
    assert qym[..2] == [0x71, 0x79] && qym[..2][..1] == [0x71] && qym[..2][..1][..0] == [];
    var q := JenkinsHash.Round(0, 0x71);
    var qy := JenkinsHash.Round(q, 0x79);
    assert JenkinsHash.Mixed(0, qym[..2][..1]) == q;
    assert JenkinsHash.Mixed(0, qym[..2]) == qy;
  }

  lemma QymWord()
    ensures (1972513631 as bv32) as int == 1972513631
  {
  }

  /** Writing a link and reading it gives everything back: the hash text, the name once
      decoded, and each tracker's host and port in order. */
  lemma WrittenLinkReads(link: Link)
    requires LinkOk(link)
    ensures PartsFit(LinkText(LinkPairs(link)))
    ensures var pairs := ParsePairs(LinkText(LinkPairs(link)));
            var log := Others(pairs);
            && AllStored(log)
            && Answered(log, XT) && Lookup(log, XT) == Some(link.xt)
            && Answered(log, DN) && Lookup(log, DN).Some?
            && CStr(UrlDecoded(Lookup(log, DN).value)) == link.name
            && |TrackerValues(pairs)| == |link.trackers|
            && forall i | 0 <= i < |link.trackers| ::
                 && AddressOk(TrackerValues(pairs)[i])
                 && Host(TrackerValues(pairs)[i]) == link.trackers[i].0
                 && Port(TrackerValues(pairs)[i]) == link.trackers[i].1
  {
    hide LinkText, PartsFit, ParsePairs, UrlEncoded, UrlDecoded, AddressFor, AddressOk, Host, Port,
         CStr, Others, TrackerValues, Pieces;
    var pairs := LinkPairs(link);
    LinkPairsReadable(link);
    LinkFits(pairs);
    LinkRoundTrip(pairs);
    assert link.trackers[..|link.trackers|] == link.trackers;
    TrackerPairsRoute(link, |link.trackers|);
    LookupBoth((XT, link.xt), (DN, EncodedC(link.name)));
    FewAreStored(Others(ParsePairs(LinkText(pairs))));
    UrlRoundTrip(link.name);
    CStrTerminated(link.name, []);
    forall i | 0 <= i < |link.trackers|
      ensures var address := TrackerValues(pairs)[i];
              && AddressOk(address)
              && Host(address) == link.trackers[i].0 && Port(address) == link.trackers[i].1
    {
      var (host, port) := link.trackers[i];
      AddressNotEmpty(host, port);
      UrlEncodedSafe(AddressFor(host, port));
      AddressRoundTrip(host, port);
    }
  }

  lemma LookupBoth(xt: Binding, dn: Binding)
    requires xt.0 == XT && dn.0 == DN
    ensures Answered([xt, dn], XT) && Lookup([xt, dn], XT) == Some(xt.1)
    ensures Answered([xt, dn], DN) && Lookup([xt, dn], DN) == Some(dn.1)
  {
    hide Slot;
    KeysApart();
    AloneIsAnswered([xt, dn], XT);
    AloneIsAnswered([xt, dn], DN);
    assert [xt, dn][1..] == [dn];
  }
}
