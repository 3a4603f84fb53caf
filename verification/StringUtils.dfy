/** Percent-encoding as in sections 2.1 and 2.3 of RFC 3986, with '+' for a space, and the
    splitting of addresses. */
module StringUtils {
  import opened Bytes
  import opened Linkedlists

  const PERCENT: Byte := 0x25
  const PLUS: Byte := 0x2b
  const SPACE: Byte := 0x20
  const AMPERSAND: Byte := 0x26
  const EQUALS: Byte := 0x3d

  predicate IsAlnum(b: Byte) {
    IsDigit(b) || 0x41 <= b <= 0x5a || 0x61 <= b <= 0x7a
  }

  /** isalnum, '-', '_', '.' and '~' */
  predicate Unreserved(b: Byte) {
    IsAlnum(b) || b == 0x2d || b == 0x5f || b == 0x2e || b == 0x7e
  }

  function ToLower(b: Byte): Byte {
    if 0x41 <= b <= 0x5a then b + 0x20 else b
  }

  function FromHex(ch: Byte): Byte {
    if IsDigit(ch) then ch - 0x30 else ToLower(ch) - 0x61 + 10
  }

  /** `hex[code & 15]` */
  function ToHex(code: Byte): Byte {
    var nibble := code & 15;
    if nibble < 10 then 0x30 + nibble else 0x57 + nibble
  }

  function HighNibble(b: Byte): Byte {
    b >> 4
  }

  function Joined(high: Byte, low: Byte): Byte {
    (high << 4) | low
  }

  // ---------- The codec on texts ----------

  function EncodeByte(b: Byte): seq<Byte> {
    if Unreserved(b) then [b]
    else if b == SPACE then [PLUS]
    else [PERCENT, ToHex(HighNibble(b)), ToHex(b & 15)]
  }

  function UrlEncoded(s: seq<Byte>): seq<Byte> {
    if s == [] then [] else UrlEncoded(s[..|s| - 1]) + EncodeByte(s[|s| - 1])
  }

  /** Decoding from the front: an escape without two bytes after it is dropped alone. */
  function UrlDecoded(s: seq<Byte>): seq<Byte> {
    if s == [] then []
    else if s[0] == PERCENT then
      if |s| >= 3 then [Joined(FromHex(s[1]), FromHex(s[2]))] + UrlDecoded(s[3..])
      else UrlDecoded(s[1..])
    else if s[0] == PLUS then [SPACE] + UrlDecoded(s[1..])
    else [s[0]] + UrlDecoded(s[1..])
  }

  // ---------- The codec in numbers ----------

  predicate IsHex(b: Byte) {
    0x30 <= b <= 0x39 || 0x41 <= b <= 0x46 || 0x61 <= b <= 0x66
  }

  /** What a hex digit of either case is worth. */
  function HexValue(b: Byte): int
    requires IsHex(b)
  {
    if b <= 0x39 then b as int - 48 else if b <= 0x46 then b as int - 55 else b as int - 87
  }

  lemma FromHexIsValue(b: Byte)
    requires IsHex(b)
    ensures FromHex(b) <= 15 && FromHex(b) as int == HexValue(b)
  {
    if b <= 0x39 {
      assert b == 0x30 || b == 0x31 || b == 0x32 || b == 0x33 || b == 0x34
             || b == 0x35 || b == 0x36 || b == 0x37 || b == 0x38 || b == 0x39;
    } else if b <= 0x46 {
      assert b == 0x41 || b == 0x42 || b == 0x43 || b == 0x44 || b == 0x45 || b == 0x46;
    } else {
      assert b == 0x61 || b == 0x62 || b == 0x63 || b == 0x64 || b == 0x65 || b == 0x66;
    }
  }

  lemma JoinedIsSum(high: Byte, low: Byte)
    requires high <= 15 && low <= 15
    ensures Joined(high, low) as int == 16 * (high as int) + (low as int)
  {
  }

  /** An escape is one byte; with hex digits of either case, the byte they spell. */
  lemma DecodeEscape(h: Byte, l: Byte, rest: seq<Byte>)
    ensures var decoded := UrlDecoded([0x25, h, l] + rest);
            && |decoded| == 1 + |UrlDecoded(rest)| && decoded[1..] == UrlDecoded(rest)
            && (IsHex(h) && IsHex(l) ==> decoded[0] as int == 16 * HexValue(h) + HexValue(l))
  {
    hide FromHex, Joined, HexValue;
    if IsHex(h) && IsHex(l) {
      FromHexIsValue(h);
      FromHexIsValue(l);
      JoinedIsSum(FromHex(h), FromHex(l));
    }
    assert ([0x25, h, l] + rest)[3..] == rest;
  }

  /** A '+' is a space, a '%' without two bytes after it is dropped, and every other byte
      stands for itself. */
  lemma DecodeOther(b: Byte, rest: seq<Byte>)
    ensures UrlDecoded([]) == []
    ensures b == 0x2b ==> UrlDecoded([b] + rest) == [0x20] + UrlDecoded(rest)
    ensures b == 0x25 && |rest| < 2 ==> UrlDecoded([b] + rest) == UrlDecoded(rest)
    ensures b != 0x2b && b != 0x25 ==> UrlDecoded([b] + rest) == [b] + UrlDecoded(rest)
  {
    assert ([b] + rest)[1..] == rest;
  }

  /** "%5Bettv%5D" is "[ettv]". */
  lemma DecodeExample()
    ensures UrlDecoded([0x25, 0x35, 0x42, 0x65, 0x74, 0x74, 0x76, 0x25, 0x35, 0x44]) ==
            [0x5b, 0x65, 0x74, 0x74, 0x76, 0x5d]
  {
    hide UrlDecoded;
    var end: seq<Byte> := [0x25, 0x35, 0x44];
    EscapeExamples();
    DecodeOther(0x76, end);
    DecodeOther(0x74, [0x76] + end);
    DecodeOther(0x74, [0x74] + ([0x76] + end));
    DecodeOther(0x65, [0x74] + ([0x74] + ([0x76] + end)));
    var name := [0x65] + ([0x74] + ([0x74] + ([0x76] + end)));
    OpeningExample(name);
    assert [0x25, 0x35, 0x42] + name == [0x25, 0x35, 0x42, 0x65, 0x74, 0x74, 0x76, 0x25, 0x35, 0x44];
  }

  lemma EscapeExamples()
    ensures UrlDecoded([0x25, 0x35, 0x44]) == [0x5d]
  {
    assert ([0x25, 0x35, 0x44] + [])[3..] == [];
  }

  lemma OpeningExample(rest: seq<Byte>)
    ensures UrlDecoded([0x25, 0x35, 0x42] + rest) == [0x5b] + UrlDecoded(rest)
  {
    assert ([0x25, 0x35, 0x42] + rest)[3..] == rest;
  }

  /** How one byte is written: letters, digits, '-', '.', '_' and '~' as they are, a space as
      '+', and any other byte as '%' and its two digits in lower case. */
  lemma EncodeByteWrites(b: Byte)
    ensures var kept := || 0x30 <= b <= 0x39 || 0x41 <= b <= 0x5a || 0x61 <= b <= 0x7a
                        || b == 0x2d || b == 0x2e || b == 0x5f || b == 0x7e;
            && (kept ==> EncodeByte(b) == [b])
            && (b == 0x20 ==> EncodeByte(b) == [0x2b])
            && (!kept && b != 0x20 ==>
                  && |EncodeByte(b)| == 3 && EncodeByte(b)[0] == 0x25
                  && IsHex(EncodeByte(b)[1]) && IsHex(EncodeByte(b)[2])
                  && !(0x41 <= EncodeByte(b)[1] <= 0x46) && !(0x41 <= EncodeByte(b)[2] <= 0x46)
                  && b as int == 16 * HexValue(EncodeByte(b)[1]) + HexValue(EncodeByte(b)[2]))
  {
    hide HexValue, FromHex, ToHex, Joined, HighNibble;
    NibblesJoin(b);
    LowerHex(HighNibble(b));
    LowerHex(b & 15);
    HexDigit(HighNibble(b));
    HexDigit(b & 15);
    FromHexIsValue(ToHex(HighNibble(b)));
    FromHexIsValue(ToHex(b & 15));
    JoinedIsSum(HighNibble(b), b & 15);
  }

  lemma LowerHex(code: Byte)
    requires code <= 15
    ensures IsHex(ToHex(code)) && !(0x41 <= ToHex(code) <= 0x46)
  {
  }

  lemma HexDigit(code: Byte)
    requires code <= 15
    ensures FromHex(ToHex(code)) == code
    ensures IsAlnum(ToHex(code)) && ToHex(code) != 0
  {
  }

  /** An escape may use letters of either case. */
  lemma HexEitherCase(code: Byte)
    requires 10 <= code <= 15
    ensures FromHex(0x37 + code) == code && FromHex(0x57 + code) == code
  {
  }

  lemma NibblesJoin(b: Byte)
    ensures HighNibble(b) <= 15 && b & 15 <= 15
    ensures Joined(HighNibble(b), b & 15) == b
  {
  }

  /** Decoding one encoded byte in front of anything gives that byte back. */
  lemma DecodeByte(b: Byte, rest: seq<Byte>)
    ensures UrlDecoded(EncodeByte(b) + rest) == [b] + UrlDecoded(rest)
  {
    var e := EncodeByte(b);
    if |e| == 1 {
      assert (e + rest)[1..] == rest;
    } else {
      NibblesJoin(b);
      HexDigit(HighNibble(b));
      HexDigit(b & 15);
      assert (e + rest)[3..] == rest;
    }
  }

  lemma {:induction false} DecodeEncodedPrefix(s: seq<Byte>, rest: seq<Byte>)
    ensures UrlDecoded(UrlEncoded(s) + rest) == s + UrlDecoded(rest)
  {
    hide UrlDecoded, EncodeByte;
    if s == [] {
      assert UrlEncoded(s) + rest == rest;
    } else {
      var front, b := s[..|s| - 1], s[|s| - 1];
      assert UrlEncoded(s) + rest == UrlEncoded(front) + (EncodeByte(b) + rest);
      DecodeEncodedPrefix(front, EncodeByte(b) + rest);
      DecodeByte(b, rest);
      assert s == front + [b];
    }
  }

  /** Decoding undoes encoding. */
  lemma UrlRoundTrip(s: seq<Byte>)
    ensures UrlDecoded(UrlEncoded(s)) == s
  {
    DecodeEncodedPrefix(s, []);
    assert UrlEncoded(s) + [] == UrlEncoded(s);
  }

  lemma UrlEncodedInjective(s: seq<Byte>, t: seq<Byte>)
    requires UrlEncoded(s) == UrlEncoded(t)
    ensures s == t
  {
    UrlRoundTrip(s);
    UrlRoundTrip(t);
  }

  lemma EncodeByteSafe(b: Byte)
    ensures 1 <= |EncodeByte(b)| <= 3
    ensures forall c | c in EncodeByte(b) :: c != AMPERSAND && c != EQUALS && c != COLON && c != 0
  {
    if |EncodeByte(b)| == 3 {
      NibblesJoin(b);
      HexDigit(HighNibble(b));
      HexDigit(b & 15);
    }
  }

  /** Encoded text has none of the bytes that separate the parts of a link, no NUL, and at
      most three bytes for each original one. */
  lemma {:induction false} UrlEncodedSafe(s: seq<Byte>)
    ensures |s| <= |UrlEncoded(s)| <= 3 * |s|
    ensures forall c | c in UrlEncoded(s) :: c != AMPERSAND && c != EQUALS && c != COLON && c != 0
  {
    if s != [] {
      UrlEncodedSafe(s[..|s| - 1]);
      EncodeByteSafe(s[|s| - 1]);
    }
  }

  lemma {:induction false} UrlDecodedShort(s: seq<Byte>)
    ensures |UrlDecoded(s)| <= |s|
    decreases |s|
  {
    if s == [] {
    } else if s[0] == PERCENT && |s| >= 3 {
      UrlDecodedShort(s[3..]);
    } else {
      UrlDecodedShort(s[1..]);
    }
  }

  // ---------- The codec on buffers ----------

  /** The byte at `i`, where the terminator of the string is its last. */
  function CharAt(s: CString, i: nat): (b: Byte)
    requires i <= |s|
    ensures b == 0 <==> i == |s|
  {
    if i < |s| then (assert s[i] in s; s[i]) else 0
  }

  lemma UrlEncodedPrefix(s: seq<Byte>, i: nat)
    requires i <= |s|
    ensures i == 0 ==> UrlEncoded(s[..i]) == []
    ensures i < |s| ==> UrlEncoded(s[..i + 1]) == UrlEncoded(s[..i]) + EncodeByte(s[i])
  {
    if i < |s| {
      assert s[..i + 1][..i] == s[..i];
    }
  }

  /** Writes the three bytes of an escape. */
  method Escape(buf: array<Byte>, n: nat, c: Byte)
    requires n + 3 <= buf.Length
    modifies buf
    ensures buf[..n + 3] == old(buf[..n]) + [PERCENT, ToHex(HighNibble(c)), ToHex(c & 15)]
  {
    hide ToHex, HighNibble;
    buf[n], buf[n + 1], buf[n + 2] := PERCENT, ToHex(HighNibble(c)), ToHex(c & 15);
  }

  method UrlEncode(input: CString) returns (buf: array<Byte>, n: nat)
    ensures fresh(buf) && buf.Length == 3 * |input| + 1
    ensures n < buf.Length && buf[n] == 0
    ensures buf[..n] == UrlEncoded(input)
    ensures CStr(buf[..]) == UrlEncoded(input)
  {
    hide Unreserved, ToHex, HighNibble, CStr, NulFree, UrlEncoded;
    buf := new Byte[3 * |input| + 1];
    n := 0;
    var p := 0;
    UrlEncodedPrefix(input, 0);
    while CharAt(input, p) != 0
      invariant p <= |input| && n <= 3 * p
      invariant buf[..n] == UrlEncoded(input[..p])
      decreases |input| - p
    {
      var c := input[p];
      ghost var out := buf[..n];
      UrlEncodedPrefix(input, p);
      if Unreserved(c) {
        buf[n] := c;
        n := n + 1;
        assert buf[..n] == out + [c];
      } else if c == SPACE {
        buf[n] := PLUS;
        n := n + 1;
        assert buf[..n] == out + [PLUS];
      } else {
        Escape(buf, n, c);
        n := n + 3;
      }
      p := p + 1;
    }
    buf[n] := 0;
    assert input[..p] == input;
    UrlEncodedSafe(input);
    TextAt(buf[..], n);
  }

  /** A buffer cut at a NUL reads as what stands before it. */
  lemma TerminatedAt(s: seq<Byte>, n: nat)
    requires n < |s| && s[n] == 0
    ensures CStr(s) == CStr(s[..n])
  {
    hide CStr;
    assert s == s[..n] + [0] + s[n + 1..];
    CStrPrefix(s[..n], s[n + 1..]);
  }

  lemma TextAt(s: seq<Byte>, n: nat)
    requires n < |s| && s[n] == 0 && 0 !in s[..n]
    ensures CStr(s) == s[..n]
  {
    TerminatedAt(s, n);
    CStrTerminated(s[..n], []);
  }

  /** How many input bytes the decoder consumes at the front of `s`, and what it writes. */
  function DecodeStep(s: seq<Byte>): (step: (seq<Byte>, nat))
    requires s != []
    ensures 1 <= step.1 <= |s| && |step.0| <= 1
  {
    if s[0] == PERCENT then
      if |s| >= 3 then ([Joined(FromHex(s[1]), FromHex(s[2]))], 3) else ([], 1)
    else if s[0] == PLUS then ([SPACE], 1)
    else ([s[0]], 1)
  }

  lemma DecodeStepCorrect(input: seq<Byte>, p: nat)
    requires p < |input|
    ensures var (bytes, k) := DecodeStep(input[p..]);
            UrlDecoded(input[p..]) == bytes + UrlDecoded(input[p + k..])
  {
    hide FromHex, Joined;
    var s := input[p..];
    var k := DecodeStep(s).1;
    assert s[k..] == input[p + k..];
    assert [] + UrlDecoded(s[k..]) == UrlDecoded(s[k..]);
  }

  method UrlDecode(input: CString) returns (buf: array<Byte>, n: nat)
    ensures fresh(buf) && buf.Length == |input| + 1
    ensures n < buf.Length && buf[n] == 0
    ensures buf[..n] == UrlDecoded(input)
    ensures CStr(buf[..]) == CStr(UrlDecoded(input))
  {
    hide FromHex, Joined, UrlDecoded, CStr;
    buf := new Byte[|input| + 1];
    n := 0;
    var p := 0;
    assert input[0..] == input;
    while CharAt(input, p) != 0
      invariant n <= p <= |input|
      invariant buf[..n] + UrlDecoded(input[p..]) == UrlDecoded(input)
      decreases |input| - p
    {
      ghost var out, p0 := buf[..n], p;
      DecodeStepCorrect(input, p);
      var c := input[p];
      if c == PERCENT {
        if CharAt(input, p + 1) != 0 && CharAt(input, p + 2) != 0 {
          buf[n] := Joined(FromHex(input[p + 1]), FromHex(input[p + 2]));
          n := n + 1;
          p := p + 2;
        }
      } else if c == PLUS {
        buf[n] := SPACE;
        n := n + 1;
      } else {
        buf[n] := c;
        n := n + 1;
      }
      p := p + 1;
      assert DecodeStep(input[p0..]).1 == p - p0;
      assert buf[..n] == out + DecodeStep(input[p0..]).0;
    }
    buf[n] := 0;
    DecodedNothing();
    assert input[p..] == [] && buf[..n] == UrlDecoded(input);
    TerminatedAt(buf[..], n);
  }

  lemma DecodedNothing()
    ensures UrlDecoded([]) == []
  {
  }

  lemma {:induction false} CStrPrefix(s: seq<Byte>, rest: seq<Byte>)
    ensures CStr(s + [0] + rest) == CStr(s)
  {
    if s == [] || s[0] == 0 {
    } else {
      assert (s + [0] + rest)[1..] == s[1..] + [0] + rest;
      CStrPrefix(s[1..], rest);
    }
  }

  // ---------- Splitting ----------

  /** The pieces between the colons of a text; there is always at least one. */
  function Pieces(s: seq<Byte>): (ps: seq<seq<Byte>>)
    ensures |ps| >= 1
  {
    if s == [] then [[]]
    else
      var front, b := Pieces(s[..|s| - 1]), s[|s| - 1];
      if b == COLON then front + [[]]
      else front[..|front| - 1] + [front[|front| - 1] + [b]]
  }

  function JoinedBy(ps: seq<seq<Byte>>, sep: seq<Byte>): seq<Byte>
    requires ps != []
  {
    if |ps| == 1 then ps[0] else JoinedBy(ps[..|ps| - 1], sep) + sep + ps[|ps| - 1]
  }

  predicate CleanPiece(p: seq<Byte>, s: seq<Byte>) {
    COLON !in p && |p| <= |s| && (NulFree(s) ==> NulFree(p))
  }

  lemma CleanMore(p: seq<Byte>, s: seq<Byte>)
    requires s != [] && CleanPiece(p, s[..|s| - 1])
    ensures CleanPiece(p, s)
    ensures s[|s| - 1] != COLON ==> CleanPiece(p + [s[|s| - 1]], s)
  {
    assert s == s[..|s| - 1] + [s[|s| - 1]];
  }

  lemma {:induction false} CleanPieces(s: seq<Byte>, i: nat)
    requires i < |Pieces(s)|
    ensures CleanPiece(Pieces(s)[i], s)
  {
    hide CleanPiece;
    if s == [] {
      EmptyIsClean(s);
    } else {
      var front := s[..|s| - 1];
      var n := |Pieces(front)|;
      if i < n {
        CleanPieces(front, i);
        CleanMore(Pieces(front)[i], s);
      } else {
        EmptyIsClean(s);
      }
    }
  }

  lemma EmptyIsClean(s: seq<Byte>)
    ensures CleanPiece([], s)
  {
  }

  lemma PiecesHaveNoColon(s: seq<Byte>)
    ensures forall i | 0 <= i < |Pieces(s)| :: COLON !in Pieces(s)[i]
    ensures forall i | 0 <= i < |Pieces(s)| :: |Pieces(s)[i]| <= |s|
    ensures 0 !in s ==> forall i | 0 <= i < |Pieces(s)| :: 0 !in Pieces(s)[i]
  {
    forall i | 0 <= i < |Pieces(s)|
      ensures CleanPiece(Pieces(s)[i], s)
    {
      CleanPieces(s, i);
    }
  }

  lemma JoinOne(t: seq<Byte>)
    ensures JoinedBy([t], [COLON]) == t
  {
  }

  lemma JoinMore(ps: seq<seq<Byte>>, t: seq<Byte>)
    requires ps != []
    ensures JoinedBy(ps + [t], [COLON]) == JoinedBy(ps, [COLON]) + [COLON] + t
  {
    assert (ps + [t])[..|ps|] == ps;
  }

  /** Extending the last piece extends the text. */
  lemma JoinLast(ps: seq<seq<Byte>>, last: seq<Byte>, t: seq<Byte>)
    ensures JoinedBy(ps + [last + t], [COLON]) == JoinedBy(ps + [last], [COLON]) + t
  {
    hide JoinedBy;
    if ps == [] {
      JoinOne(last + t);
      JoinOne(last);
      assert ps + [last + t] == [last + t] && ps + [last] == [last];
    } else {
      JoinMore(ps, last + t);
      JoinMore(ps, last);
    }
  }

  /** Joining the pieces restores the text. */
  lemma {:induction false} JoinPieces(s: seq<Byte>)
    ensures JoinedBy(Pieces(s), [COLON]) == s
  {
    hide JoinedBy, Pieces;
    if s == [] {
      PiecesOfPrefix(s, 0);
      JoinOne([]);
    } else {
      var front, b := s[..|s| - 1], s[|s| - 1];
      PiecesOfPrefix(s, |s| - 1);
      assert s[..|s|] == s;
      JoinPieces(front);
      if b == COLON {
        JoinMore(Pieces(front), []);
        assert front + [COLON] + [] == s;
      } else {
        var ps := Pieces(front);
        JoinLast(ps[..|ps| - 1], ps[|ps| - 1], [b]);
        assert ps == ps[..|ps| - 1] + [ps[|ps| - 1]];
        assert front + [b] == s;
      }
    }
  }

  lemma {:induction false} PiecesConcat(s: seq<Byte>, t: seq<Byte>)
    requires COLON !in t
    ensures Pieces(s + t) == Pieces(s)[..|Pieces(s)| - 1] + [Pieces(s)[|Pieces(s)| - 1] + t]
  {
    var ps := Pieces(s);
    if t == [] {
      assert s + t == s;
      assert ps[|ps| - 1] + t == ps[|ps| - 1];
    } else {
      var n := |t| - 1;
      assert (s + t)[..|s + t| - 1] == s + t[..n];
      PiecesConcat(s, t[..n]);
      assert ps[|ps| - 1] + t[..n] + [t[n]] == ps[|ps| - 1] + t;
    }
  }

  /** A colon starts a new piece. */
  lemma PiecesAfterColon(s: seq<Byte>, t: seq<Byte>)
    requires COLON !in t
    ensures Pieces(s + [COLON] + t) == Pieces(s) + [t]
  {
    assert (s + [COLON])[..|s|] == s;
    assert Pieces(s + [COLON]) == Pieces(s) + [[]];
    PiecesConcat(s + [COLON], t);
    assert [] + t == t;
  }

  /** Splitting the join of colon-free texts gives those texts. */
  lemma {:induction false} PiecesOfJoin(ps: seq<seq<Byte>>)
    requires ps != [] && forall i | 0 <= i < |ps| :: COLON !in ps[i]
    ensures Pieces(JoinedBy(ps, [COLON])) == ps
  {
    hide Pieces;
    var n := |ps| - 1;
    if n == 0 {
      PiecesOfPrefix(ps[0], 0);
      PiecesConcat([], ps[0]);
      assert ps[0][..0] == [] && [] + ps[0] == ps[0];
    } else {
      PiecesOfJoin(ps[..n]);
      PiecesAfterColon(JoinedBy(ps[..n], [COLON]), ps[n]);
      assert ps == ps[..n] + [ps[n]];
    }
  }

  /** What a split at a chosen delimiter would give. */
  function SplitAt(s: seq<Byte>, c: Byte): (ps: seq<seq<Byte>>)
    ensures |ps| >= 1
  {
    if s == [] then [[]]
    else
      var front, b := SplitAt(s[..|s| - 1], c), s[|s| - 1];
      if b == c then front + [[]]
      else front[..|front| - 1] + [front[|front| - 1] + [b]]
  }

  lemma {:induction false} PiecesAreSplitAtColons(s: seq<Byte>)
    ensures Pieces(s) == SplitAt(s, COLON)
  {
    if s != [] {
      PiecesAreSplitAtColons(s[..|s| - 1]);
    }
  }

  lemma {:induction false} FirstPiece(s: seq<Byte>, c: Byte)
    ensures var p := SplitAt(s, c)[0];
            && p <= s && c !in p
            && (if |SplitAt(s, c)| > 1 then |p| < |s| && s[|p|] == c else p == s)
  {
    if s == [] {
      SplitAtStep(s, c);
    } else {
      hide SplitAt;
      var front := s[..|s| - 1];
      assert s == front + [s[|s| - 1]];
      SplitAtStep(s, c);
      FirstPiece(front, c);
      if |SplitAt(front, c)| > 1 {
        assert SplitAt(s, c)[0] == SplitAt(front, c)[0];
      }
    }
  }

  lemma SplitAtStep(s: seq<Byte>, c: Byte)
    ensures s == [] ==> SplitAt(s, c) == [[]]
    ensures s != [] ==>
              var front := SplitAt(s[..|s| - 1], c);
              SplitAt(s, c) == if s[|s| - 1] == c then front + [[]]
                               else front[..|front| - 1] + [front[|front| - 1] + [s[|s| - 1]]]
  {
  }

  /** The split meets a request for another delimiter if and only if the text holds neither
      that delimiter nor a colon. */
  lemma SplitMeetsDelimiter(s: seq<Byte>, c: Byte)
    ensures Pieces(s) == SplitAt(s, c) <==> c == COLON || (COLON !in s && c !in s)
  {
    hide Pieces, SplitAt;
    PiecesAreSplitAtColons(s);
    FirstPiece(s, COLON);
    FirstPiece(s, c);
  }

  /** So "a,b" is not split at its comma. */
  lemma SplitIgnoresComma()
    ensures Pieces([0x61, 0x2c, 0x62]) == [[0x61, 0x2c, 0x62]]
    ensures SplitAt([0x61, 0x2c, 0x62], 0x2c) != Pieces([0x61, 0x2c, 0x62])
  {
    var s: seq<Byte> := [0x61, 0x2c, 0x62];
    assert s[1] == 0x2c;
    SplitMeetsDelimiter(s, 0x2c);
    PiecesAreSplitAtColons(s);
    FirstPiece(s, COLON);
  }

  lemma {:induction false} PrefixPiecesFit(s: seq<Byte>, i: nat, bound: nat)
    requires i <= |s| && forall k | 0 <= k < |Pieces(s)| :: |Pieces(s)[k]| <= bound
    ensures forall k | 0 <= k < |Pieces(s[..i])| :: |Pieces(s[..i])[k]| <= bound
  {
    if i == |s| {
      assert s[..i] == s;
    } else {
      var front := s[..|s| - 1];
      var ps := Pieces(front);
      forall k | 0 <= k < |ps|
        ensures |ps[k]| <= bound
      {
        assert |ps[k]| <= |Pieces(s)[k]|;
      }
      assert s[..i] == front[..i];
      PrefixPiecesFit(front, i, bound);
    }
  }

  predicate PiecesFit(s: seq<Byte>) {
    forall i | 0 <= i < |Pieces(s)| :: |Pieces(s)[i]| <= 255
  }

  /** memset(buffer, 0, 256) */
  method Clear(buffer: array<Byte>)
    modifies buffer
    ensures forall j | 0 <= j < buffer.Length :: buffer[j] == 0
  {
    forall j | 0 <= j < buffer.Length {
      buffer[j] := 0;
    }
  }

  /** The first `n` bytes of the buffer hold `text` and the rest is zero. */
  ghost predicate Buffered(buffer: array<Byte>, text: seq<Byte>)
    reads buffer
  {
    && buffer.Length == 256 && |text| <= 256
    && buffer[..|text|] == text
    && forall j | |text| <= j < 256 :: buffer[j] == 0
  }

  lemma BufferedText(buffer: array<Byte>, text: CString)
    requires Buffered(buffer, text) && |text| <= 255
    ensures CStr(buffer[..]) == text
  {
    hide CStr;
    TextAt(buffer[..], |text|);
  }

  lemma EmptyBuffer(buffer: array<Byte>)
    requires buffer.Length == 256 && forall j | 0 <= j < 256 :: buffer[j] == 0
    ensures Buffered(buffer, [])
  {
  }

  method Put(buffer: array<Byte>, pos: nat, c: Byte, ghost text: seq<Byte>)
    requires Buffered(buffer, text) && pos == |text| < 256
    modifies buffer
    ensures Buffered(buffer, text + [c])
  {
    buffer[pos] := c;
    assert buffer[..pos] == text;
    assert buffer[..pos + 1] == text + [c];
  }

  /** The pieces of the first `i` bytes: those that are complete, and the one being read. */
  function Complete(s: seq<Byte>, i: nat): seq<seq<Byte>>
    requires i <= |s|
  {
    var ps := Pieces(s[..i]);
    ps[..|ps| - 1]
  }

  function Current(s: seq<Byte>, i: nat): seq<Byte>
    requires i <= |s|
  {
    var ps := Pieces(s[..i]);
    ps[|ps| - 1]
  }

  lemma SplitStarts(s: seq<Byte>)
    ensures Complete(s, 0) == [] && Current(s, 0) == []
  {
    hide Pieces;
    PiecesOfPrefix(s, 0);
  }

  lemma SplitEnds(s: seq<Byte>)
    ensures Complete(s, |s|) + [Current(s, |s|)] == Pieces(s)
  {
    hide Pieces;
    assert s[..|s|] == s;
    AllButLast(Pieces(s));
  }

  lemma AllButLast(ps: seq<seq<Byte>>)
    requires ps != []
    ensures ps[..|ps| - 1] + [ps[|ps| - 1]] == ps
  {
  }

  lemma SplitGoesOn(s: seq<Byte>, i: nat)
    requires i < |s|
    ensures if s[i] == COLON then
              Complete(s, i + 1) == Complete(s, i) + [Current(s, i)] && Current(s, i + 1) == []
            else
              Complete(s, i + 1) == Complete(s, i) && Current(s, i + 1) == Current(s, i) + [s[i]]
  {
    hide Pieces;
    PiecesOfPrefix(s, i);
    AllButLast(Pieces(s[..i]));
  }

  lemma CurrentFits(s: CString, i: nat)
    requires PiecesFit(s) && i <= |s|
    ensures NulFree(Current(s, i)) && |Current(s, i)| <= 255
  {
    hide Pieces;
    PrefixPiecesFit(s, i, 255);
    assert forall k | 0 <= k < i :: s[..i][k] in s;
    PiecesHaveNoColon(s[..i]);
  }

  /** The delimiter is not looked at: the split is always at colons. A piece has to leave room
      for its terminator in the 256-byte buffer. */
  method Split(input: CString, delimiter: Byte) returns (list: Linkedlist<seq<Byte>>)
    requires PiecesFit(input)
    ensures list.Valid() && fresh(list.Repr)
    ensures list.Contents == Pieces(input)
  {
    hide Pieces, PiecesFit, CStr, NulFree, Complete, Current, Buffered, Linkedlist<seq<Byte>>.Valid;
    list := new Linkedlist<seq<Byte>>();
    var buffer := new Byte[256](i => 0);
    var pos := 0;
    var i := 0;
    SplitStarts(input);
    EmptyBuffer(buffer);
    while CharAt(input, i) != 0
      invariant i <= |input|
      invariant list.Valid() && fresh(list.Repr) && fresh(buffer) && buffer !in list.Repr
      invariant Buffered(buffer, Current(input, i)) && pos == |Current(input, i)|
      invariant list.Contents == Complete(input, i)
      decreases |input| - i
    {
      SplitGoesOn(input, i);
      CurrentFits(input, i);
      if input[i] != COLON {
        Put(buffer, pos, input[i], Current(input, i));
        pos := pos + 1;
      } else {
        BufferedText(buffer, Current(input, i));
        list.Append(CStr(buffer[..]));
        Clear(buffer);
        EmptyBuffer(buffer);
        pos := 0;
      }
      i := i + 1;
    }
    CurrentFits(input, i);
    BufferedText(buffer, Current(input, i));
    list.Append(CStr(buffer[..]));
    SplitEnds(input);
  }

  lemma PiecesOfPrefix(s: seq<Byte>, i: nat)
    requires i <= |s|
    ensures i == 0 ==> Pieces(s[..i]) == [[]]
    ensures i < |s| ==>
              var ps := Pieces(s[..i]);
              Pieces(s[..i + 1]) ==
              if s[i] == COLON then ps + [[]] else ps[..|ps| - 1] + [ps[|ps| - 1] + [s[i]]]
  {
    if i < |s| {
      assert s[..i + 1][..i] == s[..i];
    }
  }
}
