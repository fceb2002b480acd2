/** FIPS PUB 180-1, sections 3 to 7, for messages that are whole bytes: the reference
    definition of the digest. */
module Fips180 {
  import opened Arithmetic
  import opened MessageSchedule
  import Bytes

  /** The five chaining words H0..H4, or the five working words A..E. */
  datatype Chain = Chain(a: bv32, b: bv32, c: bv32, d: bv32, e: bv32)

  // ---------------------------------------------------------------- sections 3, 5 and 6

  /** The circular left shift S^n of section 3, for the three n that the standard uses. */
  function S1(x: bv32): bv32 { (x << 1) | (x >> 31) }

  function S5(x: bv32): bv32 { (x << 5) | (x >> 27) }

  function S30(x: bv32): bv32 { (x << 30) | (x >> 2) }

  function F(t: nat, b: bv32, c: bv32, d: bv32): bv32 {
    if t < 20 then (b & c) | (!b & d)
    else if t < 40 then b ^ c ^ d
    else if t < 60 then (b & c) | (b & d) | (c & d)
    else b ^ c ^ d
  }

  function K(t: nat): bv32 {
    if t < 20 then 0x5a827999
    else if t < 40 then 0x6ed9eba1
    else if t < 60 then 0x8f1bbcdc
    else 0xca62c1d6
  }

  const IV := Chain(0x67452301, 0xefcdab89, 0x98badcfe, 0x10325476, 0xc3d2e1f0)

  // ---------------------------------------------------------------- section 7

  /** The recurrence of W_t, on the words 3, 8, 14 and 16 places back. */
  function Mix(x: bv32, y: bv32, z: bv32, w: bv32): bv32 { S1(x ^ y ^ z ^ w) }

  function Sum(x: bv32, y: bv32, z: bv32, w: bv32, k: bv32): bv32 { x + y + z + w + k }

  function Turn(f: bv32, k: bv32, w: bv32, s: Chain): Chain {
    Chain(Sum(S5(s.a), f, s.e, w, k), s.a, S30(s.b), s.c, s.d)
  }

  /** Step d of section 7 for one t, with schedule word w. */
  function Round(t: nat, w: bv32, s: Chain): Chain {
    Turn(F(t, s.b, s.c, s.d), K(t), w, s)
  }

  const SHA := Scheme(Mix, Round)

  function Plus(x: bv32, y: bv32): bv32 { x + y }

  function Add(s: Chain, r: Chain): Chain {
    Chain(Plus(s.a, r.a), Plus(s.b, r.b), Plus(s.c, r.c), Plus(s.d, r.d), Plus(s.e, r.e))
  }

  function BeWord(b0: bv8, b1: bv8, b2: bv8, b3: bv8): bv32 {
    ((b0 as bv32) << 24) | ((b1 as bv32) << 16) | ((b2 as bv32) << 8) | (b3 as bv32)
  }

  /** The sixteen words M of a 64-byte block. */
  function BlockWords(block: seq<bv8>): (r: seq<bv32>)
    requires |block| == 64
    ensures |r| == 16
  {
    seq(16, i requires 0 <= i < 16 =>
      BeWord(block[4 * i], block[4 * i + 1], block[4 * i + 2], block[4 * i + 3]))
  }

  function Compress(s: Chain, block: seq<bv8>): Chain
    requires |block| == 64
  {
    Add(s, Rounds(SHA, BlockWords(block), 80, s))
  }

  /** The chaining value after all the blocks of a whole number of blocks. */
  function Hash(s: Chain, blocks: seq<bv8>): Chain
    requires |blocks| % 64 == 0
    decreases |blocks|
  {
    if blocks == [] then s else Hash(Compress(s, blocks[..64]), blocks[64..])
  }

  // ---------------------------------------------------------------- section 4

  function Zeros(n: nat): (r: seq<bv8>)
    ensures |r| == n
  {
    seq(n, _ => 0)
  }

  /** Number of zero bytes between the 0x80 byte and the length. */
  function ZeroCount(n: nat): nat {
    (119 - n % 64) % 64
  }

  lemma PaddedLength(n: nat)
    ensures (n + 1 + ZeroCount(n) + 8) % 64 == 0
  {
    var q, r := n / 64, n % 64;
    QuotientIsUnique(64, q + if r <= 55 then 1 else 2, 0, n + 1 + ZeroCount(n) + 8);
  }

  /** The zero bytes are the fewest that end the padded message on a block boundary. */
  lemma ZeroCountIsLeast(n: nat, k: nat)
    requires (n + 1 + k + 8) % 64 == 0
    ensures ZeroCount(n) <= k
  {
    var q, r := n / 64, n % 64;
    assert n + 1 + k + 8 == 64 * ((n + 1 + k + 8) / 64);
    assert r + 9 + k == 64 * ((n + 1 + k + 8) / 64 - q);
  }

  /** Byte k, counted from the least significant, of the 64-bit form of n. */
  function LengthByte(n: nat, k: nat): bv8
    requires k < 8
  {
    (n / [0x1, 0x100, 0x1_0000, 0x100_0000, 0x1_0000_0000, 0x100_0000_0000,
          0x1_0000_0000_0000, 0x100_0000_0000_0000][k] % 256) as bv8
  }

  /** The two-word big-endian length. */
  function LengthField(bits: nat): (r: seq<bv8>)
    ensures |r| == 8
  {
    [LengthByte(bits, 7), LengthByte(bits, 6), LengthByte(bits, 5), LengthByte(bits, 4),
     LengthByte(bits, 3), LengthByte(bits, 2), LengthByte(bits, 1), LengthByte(bits, 0)]
  }

  /** The length field is the length in bits, most significant byte first. */
  lemma LengthInOrder(bits: nat, i: nat)
    requires i < 8
    ensures LengthField(bits)[i] as int == Bytes.BigEndian(bits, 8)[i]
  {
    hide *;
    Bytes.BigEndianDigit(bits, 8, i);
    PowerList(7 - i);
    FieldByte(bits, i);
    LengthByteIs(bits, 7 - i);
  }

  lemma FieldByte(bits: nat, i: nat)
    requires i < 8
    ensures LengthField(bits)[i] == LengthByte(bits, 7 - i)
  {
    hide LengthByte;
  }

  lemma LengthByteIs(n: nat, k: nat)
    requires k < 8
    ensures LengthByte(n, k) as int ==
            n / [0x1, 0x100, 0x1_0000, 0x100_0000, 0x1_0000_0000, 0x100_0000_0000,
                 0x1_0000_0000_0000, 0x100_0000_0000_0000][k] % 256
  {
    AsByte(n / [0x1, 0x100, 0x1_0000, 0x100_0000, 0x1_0000_0000, 0x100_0000_0000,
                0x1_0000_0000_0000, 0x100_0000_0000_0000][k] % 256);
  }

  lemma AsByte(v: nat)
    requires v < 256
    ensures (v as bv8) as int == v
  {
    var b := ByteOf(v);
    ByteAgain(b);
  }

  /** Counting up to a byte. */
  lemma {:induction false} ByteOf(v: nat) returns (b: bv8)
    requires v < 256
    ensures b as int == v
  {
    if v == 0 {
      b := 0;
    } else {
      var c := ByteOf(v - 1);
      OneHigher(c);
      b := c + 1;
    }
  }

  lemma OneHigher(b: bv8)
    requires b as int < 255
    ensures (b + 1) as int == b as int + 1
  {
  }

  lemma ByteAgain(b: bv8)
    ensures (b as int) as bv8 == b
  {
  }

  lemma LengthByteEquals(n: nat, k: nat, p: nat, b: bv8)
    requires k < 8 && p == Bytes.Pow256(k) && b as int == n / p % 256
    ensures LengthByte(n, k) == b
  {
    hide LengthByte, Bytes.Pow256;
    PowerList(k);
    LengthByteIs(n, k);
    ByteAgain(b);
    ByteAgain(LengthByte(n, k));
  }

  /** The two lowest bytes of a length below 2^16; the others are zero. */
  lemma ShortLength(n: nat, b1: bv8, b0: bv8)
    requires n < 0x1_0000 && b1 as int == n / 0x100 && b0 as int == n % 0x100
    ensures LengthField(n) == [0, 0, 0, 0, 0, 0, b1, b0]
  {
    hide LengthByte, Bytes.Pow256;
    PowersAre();
    LengthByteEquals(n, 0, 1, b0);
    LengthByteEquals(n, 1, 0x100, b1);
    NoByte(n, 2, 0x1_0000);
    NoByte(n, 3, 0x100_0000);
    NoByte(n, 4, 0x1_0000_0000);
    NoByte(n, 5, 0x100_0000_0000);
    NoByte(n, 6, 0x1_0000_0000_0000);
    NoByte(n, 7, 0x100_0000_0000_0000);
  }

  lemma NoByte(n: nat, k: nat, p: nat)
    requires k < 8 && p == Bytes.Pow256(k) && n < p
    ensures LengthByte(n, k) == 0
  {
    hide *;
    QuotientIsUnique(p, 0, n, n);
    LengthByteEquals(n, k, p, 0);
  }

  lemma PowersAre()
    ensures Bytes.Pow256(0) == 1 && Bytes.Pow256(1) == 0x100 && Bytes.Pow256(2) == 0x1_0000
    ensures Bytes.Pow256(3) == 0x100_0000 && Bytes.Pow256(4) == 0x1_0000_0000
    ensures Bytes.Pow256(5) == 0x100_0000_0000 && Bytes.Pow256(6) == 0x1_0000_0000_0000
    ensures Bytes.Pow256(7) == 0x100_0000_0000_0000
  {
    assert Bytes.Pow256(2) == 0x1_0000;
    assert Bytes.Pow256(4) == 0x1_0000_0000;
    assert Bytes.Pow256(6) == 0x1_0000_0000_0000;
  }

  lemma PowerList(k: nat)
    requires k < 8
    ensures Bytes.Pow256(k) == [0x1, 0x100, 0x1_0000, 0x100_0000, 0x1_0000_0000, 0x100_0000_0000,
                                0x1_0000_0000_0000, 0x100_0000_0000_0000][k]
  {
    PowersAre();
    hide Bytes.Pow256;
  }

  /** The padded message.  The standard defines it for messages below 2^64 bits; beyond that
      the length field holds the low 64 bits of the length, which is what the code stores. */
  function Padded(msg: seq<bv8>): (r: seq<bv8>)
    ensures |r| % 64 == 0
  {
    PaddedLength(|msg|);
    msg + [0x80] + Zeros(ZeroCount(|msg|)) + LengthField(8 * |msg|)
  }

  // ---------------------------------------------------------------- output

  function WordBytes(w: bv32): (r: seq<bv8>)
    ensures |r| == 4
  {
    [(w >> 24) as bv8, ((w >> 16) & 0xff) as bv8, ((w >> 8) & 0xff) as bv8, (w & 0xff) as bv8]
  }

  function ChainBytes(s: Chain): (r: seq<bv8>)
    ensures |r| == 20
  {
    WordBytes(s.a) + WordBytes(s.b) + WordBytes(s.c) + WordBytes(s.d) + WordBytes(s.e)
  }

  /** The message digest. */
  function Digest(msg: seq<bv8>): (r: seq<bv8>)
    ensures |r| == 20
  {
    ChainBytes(Hash(IV, Padded(msg)))
  }

  // ---------------------------------------------------------------- working out a digest

  /** The shifts are the circular ones of section 3. */
  lemma Rotations(x: bv32)
    ensures S1(x) == x.RotateLeft(1) && S5(x) == x.RotateLeft(5) && S30(x) == x.RotateLeft(30)
  {
  }

  lemma MixIsRotated(x: bv32, y: bv32, z: bv32, w: bv32)
    ensures Mix(x, y, z, w) == (x ^ y ^ z ^ w).RotateLeft(1)
  {
  }

  /** A to E, where x4 is the newest value of A and x0 the oldest one. */
  function Recent(x4: bv32, x3: bv32, x2: bv32, x1: bv32, x0: bv32): Chain {
    Chain(x4, x3, S30(x2), S30(x1), S30(x0))
  }

  /** The values of A after t rounds of one block; B to E are earlier ones. */
  function After(a: nat -> bv32, t: nat): Chain {
    Recent(a(t + 4), a(t + 3), a(t + 2), a(t + 1), a(t))
  }

  /** The recurrence of W_t. */
  predicate Mixed(v: bv32, x: bv32, y: bv32, z: bv32, w: bv32) {
    v == (x ^ y ^ z ^ w).RotateLeft(1)
  }

  /** The recurrence of A in step d. */
  predicate Turned(t: nat, w: bv32, x5: bv32, x4: bv32, x3: bv32, x2: bv32, x1: bv32, x0: bv32) {
    x5 == Sum(x4.RotateLeft(5), F(t, x3, x2.RotateLeft(30), x1.RotateLeft(30)), x0.RotateLeft(30), w, K(t))
  }

  predicate WordAt(w: nat -> bv32, t: nat) {
    Mixed(w(t + 16), w(t + 13), w(t + 8), w(t + 2), w(t))
  }

  predicate RoundAt(w: nat -> bv32, a: nat -> bv32, t: nat) {
    Turned(t, w(t), a(t + 5), a(t + 4), a(t + 3), a(t + 2), a(t + 1), a(t))
  }

  /** Entry i of eight, for tables. */
  function Entry(i: int, a: bv32, b: bv32, c: bv32, d: bv32, e: bv32, f: bv32, g: bv32, h: bv32): bv32 {
    if i == 0 then a else if i == 1 then b else if i == 2 then c else if i == 3 then d
    else if i == 4 then e else if i == 5 then f else if i == 6 then g else h
  }

  /** Words and values of A that are related as in section 7. */
  ghost predicate Follows(w: nat -> bv32, a: nat -> bv32) {
    (forall t :: 0 <= t < 64 ==> WordAt(w, t)) && (forall t :: 0 <= t < 80 ==> RoundAt(w, a, t))
  }

  /** Eight steps. */
  ghost predicate Eight(p: nat -> bool, k: nat) {
    p(k) && p(k + 1) && p(k + 2) && p(k + 3) && p(k + 4) && p(k + 5) && p(k + 6) && p(k + 7)
  }

  lemma InEight(p: nat -> bool, k: nat, t: nat)
    requires Eight(p, 8 * k) && 8 * k <= t < 8 * k + 8
    ensures p(t)
  {
    var i := t - 8 * k;
    assert t == 8 * k + i;
  }

  lemma {:induction false} WordsFollow(block: seq<bv32>, w: nat -> bv32, a: nat -> bv32, t: nat)
    requires |block| == 16 && (forall i :: 0 <= i < 16 ==> block[i] == w(i)) && Follows(w, a) && t < 80
    ensures W(SHA, block, t) == w(t)
  {
    hide WordAt, RoundAt;
    if t >= 16 {
      WordsFollow(block, w, a, t - 3);
      WordsFollow(block, w, a, t - 8);
      WordsFollow(block, w, a, t - 14);
      WordsFollow(block, w, a, t - 16);
      MixAt(w, t - 16);
    }
  }

  lemma MixAt(w: nat -> bv32, t: nat)
    requires WordAt(w, t)
    ensures w(t + 16) == Mix(w(t + 13), w(t + 8), w(t + 2), w(t))
  {
    hide Mix, Mixed;
    MixIs(w(t + 16), w(t + 13), w(t + 8), w(t + 2), w(t));
  }

  lemma MixIs(v: bv32, x: bv32, y: bv32, z: bv32, w: bv32)
    ensures Mixed(v, x, y, z, w) <==> v == Mix(x, y, z, w)
  {
    MixIsRotated(x, y, z, w);
    hide Mix;
  }

  /** The rounds end in the last values. */
  lemma {:induction false} RoundsFollow(block: seq<bv32>, w: nat -> bv32, a: nat -> bv32, t: nat)
    requires |block| == 16 && (forall i :: 0 <= i < 16 ==> block[i] == w(i)) && Follows(w, a) && t <= 80
    ensures Rounds(SHA, block, t, After(a, 0)) == After(a, t)
  {
    hide WordAt, RoundAt, After, Round, Mix;
    if t > 0 {
      RoundsFollow(block, w, a, t - 1);
      WordsFollow(block, w, a, t - 1);
      TurnAt(w, a, t - 1);
    }
  }

  lemma TurnAt(w: nat -> bv32, a: nat -> bv32, t: nat)
    requires RoundAt(w, a, t)
    ensures Round(t, w(t), After(a, t)) == After(a, t + 1)
  {
    hide Turned, Round, Recent;
    RoundOf(t, w(t), a(t + 5), a(t + 4), a(t + 3), a(t + 2), a(t + 1), a(t));
  }

  lemma RoundOf(t: nat, w: bv32, x5: bv32, x4: bv32, x3: bv32, x2: bv32, x1: bv32, x0: bv32)
    requires Turned(t, w, x5, x4, x3, x2, x1, x0)
    ensures Round(t, w, Recent(x4, x3, x2, x1, x0)) == Recent(x5, x4, x3, x2, x1)
  {
    hide F, K, S5, S30, Sum;
    Rotated(x4, x2, x1, x0);
  }

  lemma Rotated(x4: bv32, x2: bv32, x1: bv32, x0: bv32)
    ensures S5(x4) == x4.RotateLeft(5)
    ensures S30(x2) == x2.RotateLeft(30) && S30(x1) == x1.RotateLeft(30) && S30(x0) == x0.RotateLeft(30)
  {
    Rotations(x4);
    Rotations(x2);
    Rotations(x1);
    Rotations(x0);
    hide S5, S30;
  }

  // ---------------------------------------------------------------- folding over blocks

  lemma {:induction false} HashAppend(s: Chain, x: seq<bv8>, y: seq<bv8>)
    requires |x| % 64 == 0 && |y| % 64 == 0
    ensures |x + y| % 64 == 0
    ensures Hash(s, x + y) == Hash(Hash(s, x), y)
    decreases |x|
  {
    hide *;
    HashStep(s, x);
    if x == [] {
      assert x + y == y;
    } else {
      assert (x + y)[..64] == x[..64] && (x + y)[64..] == x[64..] + y;
      HashAppend(Compress(s, x[..64]), x[64..], y);
      HashStep(s, x + y);
    }
  }

  lemma HashStep(s: Chain, blocks: seq<bv8>)
    requires |blocks| % 64 == 0
    ensures Hash(s, blocks) == if blocks == [] then s else Hash(Compress(s, blocks[..64]), blocks[64..])
  {
    hide Compress;
  }

  lemma HashOneBlock(s: Chain, x: seq<bv8>)
    requires |x| == 64
    ensures Hash(s, x) == Compress(s, x)
  {
    assert x[..64] == x && x[64..] == [];
  }

  /** The code keeps the bit count modulo 2^64; the length field does not see the difference. */
  lemma LengthFieldWraps(n: nat)
    ensures LengthField(n % 0x1_0000_0000_0000_0000) == LengthField(n)
  {
    var q, r := n / 0x1_0000_0000_0000_0000, n % 0x1_0000_0000_0000_0000;
    assert n == 0x1_0000_0000_0000_0000 * q + r;
    LengthByteWraps(0x100_0000_0000_0000, 0x100, q, r, n);
    LengthByteWraps(0x1_0000_0000_0000, 0x1_0000, q, r, n);
    LengthByteWraps(0x100_0000_0000, 0x100_0000, q, r, n);
    LengthByteWraps(0x1_0000_0000, 0x1_0000_0000, q, r, n);
    LengthByteWraps(0x100_0000, 0x100_0000_0000, q, r, n);
    LengthByteWraps(0x1_0000, 0x1_0000_0000_0000, q, r, n);
    LengthByteWraps(0x100, 0x100_0000_0000_0000, q, r, n);
    LengthByteWraps(1, 0x1_0000_0000_0000_0000, q, r, n);
  }

  lemma LengthByteWraps(p: int, m: int, q: nat, r: nat, n: nat)
    requires p > 0 && m > 0 && m % 256 == 0 && p * m == 0x1_0000_0000_0000_0000
    requires n == 0x1_0000_0000_0000_0000 * q + r
    ensures r / p % 256 == n / p % 256
  {
    assert n == p * (m * q) + r;
    DivideMultiple(p, m * q, r);
    assert m * q == 256 * (m / 256 * q);
    RemainderOfMultiple(m / 256 * q, r / p);
  }
}
