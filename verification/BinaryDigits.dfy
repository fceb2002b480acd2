/** Numbers as sequences of bits, lowest first. */
module BinaryDigits {
  import opened Arithmetic

  function Pow2(n: nat): (r: nat)
    ensures r > 0
  {
    if n == 0 then 1 else 2 * Pow2(n - 1)
  }

  /** The n low bits of v. */
  function ToBits(v: nat, n: nat): (r: seq<bool>)
    ensures |r| == n
  {
    if n == 0 then [] else [v % 2 == 1] + ToBits(v / 2, n - 1)
  }

  /** Bitwise exclusive or of the n low bits. */
  function Xor(a: nat, b: nat, n: nat): (r: nat)
    ensures r < Pow2(n)
  {
    if n == 0 then 0 else 2 * Xor(a / 2, b / 2, n - 1) + if a % 2 == b % 2 then 0 else 1
  }

  function XorBits(x: seq<bool>, y: seq<bool>): (r: seq<bool>)
    requires |x| == |y|
    ensures |r| == |x|
  {
    seq(|x|, i requires 0 <= i < |x| => x[i] != y[i])
  }

  lemma XorStep(a: nat, b: nat, n: nat)
    requires n > 0
    ensures var x := Xor(a, b, n);
            x / 2 == Xor(a / 2, b / 2, n - 1) && x % 2 == (if a % 2 == b % 2 then 0 else 1)
  {
  }

  lemma {:induction false} XorTwice(a: nat, b: nat, n: nat)
    requires a < Pow2(n)
    ensures Xor(Xor(a, b, n), b, n) == a
  {
    if n > 0 {
      assert Pow2(n) == 2 * Pow2(n - 1);
      hide Pow2;
      XorStep(a, b, n);
      XorTwice(a / 2, b / 2, n - 1);
      XorUnfold(Xor(a, b, n), b, n);
    }
  }

  lemma XorUnfold(a: nat, b: nat, n: nat)
    requires n > 0
    ensures Xor(a, b, n) == 2 * Xor(a / 2, b / 2, n - 1) + if a % 2 == b % 2 then 0 else 1
  {
  }

  lemma {:induction false} BitsOfXor(a: nat, b: nat, n: nat)
    ensures ToBits(Xor(a, b, n), n) == XorBits(ToBits(a, n), ToBits(b, n))
  {
    if n > 0 {
      XorStep(a, b, n);
      BitsOfXor(a / 2, b / 2, n - 1);
    }
  }

  lemma {:induction false} SameBits(a: nat, b: nat, n: nat)
    requires a < Pow2(n) && b < Pow2(n) && ToBits(a, n) == ToBits(b, n)
    ensures a == b
  {
    if n > 0 {
      assert ToBits(a, n)[0] == ToBits(b, n)[0];
      assert ToBits(a, n)[1..] == ToBits(a / 2, n - 1) && ToBits(b, n)[1..] == ToBits(b / 2, n - 1);
      SameBits(a / 2, b / 2, n - 1);
    }
  }

  /** Dropping high bits. */
  lemma {:induction false} BitsOfRemainder(v: nat, n: nat)
    ensures ToBits(v % Pow2(n), n) == ToBits(v, n)
  {
    if n > 0 {
      HalveRemainder(v, Pow2(n - 1));
      BitsOfRemainder(v / 2, n - 1);
    }
  }

  lemma HalveRemainder(v: nat, p: nat)
    requires p > 0
    ensures v % (2 * p) / 2 == v / 2 % p && v % (2 * p) % 2 == v % 2
  {
    var h, b := v / 2, v % 2;
    var q, r := h / p, h % p;
    assert h == p * q + r;
    assert v == 2 * p * q + (2 * r + b);
    QuotientIsUnique(2 * p, q, 2 * r + b, v);
  }

  /** A left shift in n + 1 bits. */
  lemma BitsOfDouble(v: nat, n: nat)
    ensures ToBits(2 * v % Pow2(n + 1), n + 1) == [false] + ToBits(v, n)
  {
    BitsOfRemainder(2 * v, n + 1);
    assert 2 * v / 2 == v;
  }

  /** A right shift that leaves one bit. */
  lemma TopBit(v: nat, n: nat)
    requires v < Pow2(n + 1)
    ensures ToBits(v, n + 1)[n] == (v / Pow2(n) == 1) && v / Pow2(n) <= 1
  {
    BitAt(v, n + 1, n);
    assert Pow2(n + 1) == 2 * Pow2(n);
    AtMostOne(v, Pow2(n));
  }

  lemma AtMostOne(v: nat, p: nat)
    requires p > 0 && v < 2 * p
    ensures v / p == if v < p then 0 else 1
  {
    if v < p {
      QuotientIsUnique(p, 0, v, v);
    } else {
      QuotientIsUnique(p, 1, v - p, v);
    }
  }

  /** Bit k is what a mask with only that bit tests. */
  lemma {:induction false} BitAt(v: nat, n: nat, k: nat)
    requires k < n
    ensures ToBits(v, n)[k] == (v / Pow2(k) % 2 == 1)
  {
    if k > 0 {
      BitAt(v / 2, n - 1, k - 1);
      DivideByDouble(v, Pow2(k - 1));
    }
  }

  lemma DivideByDouble(v: nat, p: nat)
    requires p > 0
    ensures v / 2 / p == v / (2 * p)
  {
    var h, b := v / 2, v % 2;
    var q, r := h / p, h % p;
    assert h == p * q + r;
    assert v == 2 * p * q + (2 * r + b);
    QuotientIsUnique(2 * p, q, 2 * r + b, v);
  }
}
