/** Bytes as numbers, and numbers in network byte order. */
module Bytes {
  import opened Arithmetic

  type uint8 = x: int | 0 <= x < 0x100

  /** 256 to the power w. */
  function Pow256(w: nat): (r: nat)
    ensures r > 0
  {
    if w == 0 then 1 else 0x100 * Pow256(w - 1)
  }

  /** The w low bytes of v, most significant first. */
  function BigEndian(v: nat, w: nat): (r: seq<uint8>)
    ensures |r| == w
  {
    if w == 0 then [] else BigEndian(v / 0x100, w - 1) + [v % 0x100]
  }

  function Value(s: seq<uint8>): nat {
    if s == [] then 0 else 0x100 * Value(s[..|s| - 1]) + s[|s| - 1]
  }

  lemma {:induction false} ValueOfBigEndian(v: nat, w: nat)
    requires v < Pow256(w)
    ensures Value(BigEndian(v, w)) == v
  {
    if w > 0 {
      ValueOfBigEndian(v / 0x100, w - 1);
      assert BigEndian(v, w)[..w - 1] == BigEndian(v / 0x100, w - 1);
    }
  }

  lemma {:induction false} BigEndianOfValue(s: seq<uint8>)
    ensures Value(s) < Pow256(|s|) && BigEndian(Value(s), |s|) == s
  {
    if s != [] {
      BigEndianOfValue(s[..|s| - 1]);
      assert s == s[..|s| - 1] + [s[|s| - 1]];
    }
  }

  /** Byte i is the digit in base 256 with w - 1 - i places behind it. */
  lemma {:induction false} BigEndianDigit(v: nat, w: nat, i: nat)
    requires i < w
    ensures BigEndian(v, w)[i] == v / Pow256(w - 1 - i) % 0x100
  {
    if i < w - 1 {
      BigEndianDigit(v / 0x100, w - 1, i);
      DivideTwice(v, 0x100, Pow256(w - 2 - i));
    }
  }
}
