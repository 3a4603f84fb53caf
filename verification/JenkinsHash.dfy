/** The one-at-a-time hash that picks a chain of the hash map. */
module JenkinsHash {
  import opened Bytes

  /** `hash += key[i]` adds a signed char, widened to 32 bits. */
  function SignExtend(b: Byte): bv32 {
    if b < 0x80 then b as bv32 else 0xFFFF_FF00 | (b as bv32)
  }

  function AddShifted10(h: bv32): bv32 {
    h + (h << 10)
  }

  function XorShifted6(h: bv32): bv32 {
    h ^ (h >> 6)
  }

  function AddShifted3(h: bv32): bv32 {
    h + (h << 3)
  }

  function XorShifted11(h: bv32): bv32 {
    h ^ (h >> 11)
  }

  function AddShifted15(h: bv32): bv32 {
    h + (h << 15)
  }

  function AddByte(h: bv32, b: Byte): bv32 {
    h + SignExtend(b)
  }

  function Round(h: bv32, b: Byte): bv32 {
    XorShifted6(AddShifted10(AddByte(h, b)))
  }

  function Avalanche(h: bv32): bv32 {
    AddShifted15(XorShifted11(AddShifted3(h)))
  }

  /** The state after all of `key` has been mixed in, starting from `h`. */
  function Mixed(h: bv32, key: seq<Byte>): bv32 {
    if key == [] then h
    else Round(Mixed(h, key[..|key| - 1]), key[|key| - 1])
  }

  function Hash(key: seq<Byte>): bv32 {
    Avalanche(Mixed(0, key))
  }

  /** The hash of "a", and of keys with bytes from 0x80 on, which count as negative. */
  lemma HashExamples()
    ensures Hash([0x61]) == 0xca2e_9442
    ensures Hash([0x80]) == 0xc31d_4e27
    ensures Hash([0xc3, 0xa9]) == 0x0191_48ae
  {
    HashOfOne(0x61);
    HashOfOne(0x80);
    HashOfTwo(0xc3, 0xa9);
  }

  lemma HashOfOne(a: Byte)
    ensures Hash([a]) == Avalanche(Round(0, a))
  {
    assert [a][..0] == [];
    assert Mixed(0, [a]) == Round(0, a);
  }

  lemma HashOfTwo(a: Byte, b: Byte)
    ensures Hash([a, b]) == Avalanche(Round(Round(0, a), b))
  {
    assert [a, b][..1] == [a] && [a][..0] == [];
    assert Mixed(0, [a]) == Round(0, a);
  }

  method GetHash(key: seq<Byte>) returns (hash: bv32)
    ensures hash == Hash(key)
  {
    hash := 0;
    var i := 0;
    while i < |key|
      invariant i <= |key|
      invariant hash == Mixed(0, key[..i])
    {
      assert key[..i + 1][..i] == key[..i];
      hash := AddByte(hash, key[i]);
      hash := AddShifted10(hash);
      hash := XorShifted6(hash);
      i := i + 1;
    }
    assert key[..i] == key;
    hash := AddShifted3(hash);
    hash := XorShifted11(hash);
    hash := AddShifted15(hash);
  }

  // Every mixing step can be undone, so it never merges two states.

  lemma XorShiftsDistribute(x: bv32, y: bv32)
    ensures (x ^ y) ^ ((x ^ y) >> 6) == (x ^ (x >> 6)) ^ (y ^ (y >> 6))
    ensures (x ^ y) ^ ((x ^ y) >> 11) == (x ^ (x >> 11)) ^ (y ^ (y >> 11))
  {
  }

  lemma XorShiftsVanish(d: bv32)
    ensures d ^ (d >> 6) == 0 ==> d == 0
    ensures d ^ (d >> 11) == 0 ==> d == 0
  {
  }

  lemma XorVanishes(x: bv32, y: bv32)
    requires x ^ y == 0
    ensures x == y
  {
  }

  // x + (x << k) determines the low k bits of x, then the next k, and so on.

  lemma AddShifted10Low10(x: bv32, y: bv32)
    requires x + (x << 10) == y + (y << 10)
    ensures x << 22 == y << 22
  {
  }

  lemma AddShifted10Low20(x: bv32, y: bv32)
    requires x << 22 == y << 22
    requires x + (x << 10) == y + (y << 10)
    ensures x << 12 == y << 12
  {
  }

  lemma AddShifted10Low30(x: bv32, y: bv32)
    requires x << 12 == y << 12
    requires x + (x << 10) == y + (y << 10)
    ensures x << 2 == y << 2
  {
  }

  lemma AddShifted10All(x: bv32, y: bv32)
    requires x << 2 == y << 2
    requires x + (x << 10) == y + (y << 10)
    ensures x == y
  {
  }

  lemma AddShifted10Injective(x: bv32, y: bv32)
    requires AddShifted10(x) == AddShifted10(y)
    ensures x == y
  {
    AddShifted10Low10(x, y);
    AddShifted10Low20(x, y);
    AddShifted10Low30(x, y);
    AddShifted10All(x, y);
  }

  /** The inverse of AddShifted15: 1/(1 + u) is (1 - u)(1 + u^2) when u is 2^15. */
  function Undo15(h: bv32): bv32 {
    var w := h - (h << 15);
    w + (w << 30)
  }

  lemma Undo15Correct(x: bv32)
    ensures Undo15(x + (x << 15)) == x
  {
  }

  lemma AddShifted15Injective(x: bv32, y: bv32)
    requires AddShifted15(x) == AddShifted15(y)
    ensures x == y
  {
    Undo15Correct(x);
    Undo15Correct(y);
  }

  lemma AddShifted3Injective(x: bv32, y: bv32)
    requires AddShifted3(x) == AddShifted3(y)
    ensures x == y
  {
  }

  lemma XorShifted6Injective(x: bv32, y: bv32)
    requires XorShifted6(x) == XorShifted6(y)
    ensures x == y
  {
    XorShiftsDistribute(x, y);
    XorShiftsVanish(x ^ y);
    XorVanishes(x, y);
  }

  lemma XorShifted11Injective(x: bv32, y: bv32)
    requires XorShifted11(x) == XorShifted11(y)
    ensures x == y
  {
    XorShiftsDistribute(x, y);
    XorShiftsVanish(x ^ y);
    XorVanishes(x, y);
  }

  lemma AddByteInjective(x: bv32, y: bv32, b: Byte, c: Byte)
    ensures AddByte(x, b) == AddByte(y, b) ==> x == y
    ensures AddByte(x, b) == AddByte(x, c) ==> b == c
  {
  }

  /** One round is injective in the state and, for a fixed state, in the byte. */
  lemma RoundInjective(x: bv32, y: bv32, b: Byte, c: Byte)
    ensures x != y ==> Round(x, b) != Round(y, b)
    ensures b != c ==> Round(x, b) != Round(x, c)
  {
    AddByteInjective(x, y, b, c);
    if Round(x, b) == Round(y, b) {
      XorShifted6Injective(AddShifted10(AddByte(x, b)), AddShifted10(AddByte(y, b)));
      AddShifted10Injective(AddByte(x, b), AddByte(y, b));
    }
    if Round(x, b) == Round(x, c) {
      XorShifted6Injective(AddShifted10(AddByte(x, b)), AddShifted10(AddByte(x, c)));
      AddShifted10Injective(AddByte(x, b), AddByte(x, c));
    }
  }

  lemma AvalancheInjective(x: bv32, y: bv32)
    requires Avalanche(x) == Avalanche(y)
    ensures x == y
  {
    AddShifted15Injective(XorShifted11(AddShifted3(x)), XorShifted11(AddShifted3(y)));
    XorShifted11Injective(AddShifted3(x), AddShifted3(y));
    AddShifted3Injective(x, y);
  }

  /** Mixing the same tail into two different states leaves them different. */
  lemma {:induction false} MixedInjective(x: bv32, y: bv32, tail: seq<Byte>)
    requires x != y
    ensures Mixed(x, tail) != Mixed(y, tail)
  {
    if tail == [] {
    } else {
      var front, b := tail[..|tail| - 1], tail[|tail| - 1];
      MixedInjective(x, y, front);
      RoundInjective(Mixed(x, front), Mixed(y, front), b, b);
    }
  }

  lemma {:induction false} MixedConcat(h: bv32, front: seq<Byte>, tail: seq<Byte>)
    ensures Mixed(h, front + tail) == Mixed(Mixed(h, front), tail)
  {
    if tail == [] {
      assert front + tail == front;
    } else {
      var n := |tail| - 1;
      assert (front + tail)[..|front + tail| - 1] == front + tail[..n];
      MixedConcat(h, front, tail[..n]);
    }
  }

  /** Two keys of the same length that differ in exactly one byte never collide. */
  lemma OneByteNeverCollides(a: seq<Byte>, b: seq<Byte>, i: nat)
    requires |a| == |b| && i < |a|
    requires a[i] != b[i]
    requires forall j | 0 <= j < |a| && j != i :: a[j] == b[j]
    ensures Hash(a) != Hash(b)
  {
    var front, tail := a[..i], a[i + 1..];
    assert a == front + [a[i]] + tail;
    assert b == front + [b[i]] + tail;
    MixedConcat(0, front + [a[i]], tail);
    MixedConcat(0, front + [b[i]], tail);
    assert (front + [a[i]])[..i] == front == (front + [b[i]])[..i];
    var h := Mixed(0, front);
    RoundInjective(h, h, a[i], b[i]);
    MixedInjective(Round(h, a[i]), Round(h, b[i]), tail);
    if Hash(a) == Hash(b) {
      AvalancheInjective(Mixed(0, a), Mixed(0, b));
    }
  }
}
