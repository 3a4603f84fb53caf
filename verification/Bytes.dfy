/** Bytes, C strings and the few shapes every other module shares. */
module Bytes {

  /** A C `char`: eight bits, compared and shifted as the program does. */
  type Byte = bv8

  /** ':' */
  const COLON: Byte := 0x3a

  predicate IsDigit(b: Byte) {
    0x30 <= b <= 0x39
  }

  datatype Option<+T> = None | Some(value: T)

  predicate NulFree(s: seq<Byte>) {
    0 !in s
  }

  /** The text of a NUL-terminated string, without its terminator. */
  type CString = s: seq<Byte> | NulFree(s)

  /** What strlen and strcpy see of a block of memory: the bytes before the first NUL. */
  function CStr(s: seq<Byte>): (t: CString)
    ensures |t| <= |s| && t == s[..|t|]
    ensures |t| < |s| ==> s[|t|] == 0
  {
    if s == [] || s[0] == 0 then []
    else [s[0]] + CStr(s[1..])
  }

  /** A NUL-free text followed by a terminator is read back unchanged. */
  lemma {:induction false} CStrTerminated(s: CString, rest: seq<Byte>)
    ensures CStr(s) == s
    ensures CStr(s + [0] + rest) == s
  {
    if s == [] {
    } else {
      var t: CString := s[1..];
      assert s[0] in s;
      assert (s + [0] + rest)[1..] == t + [0] + rest;
      CStrTerminated(t, rest);
    }
  }
}
