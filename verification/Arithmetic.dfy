/** Facts about division that the solver does not find by itself. */
module Arithmetic {

  lemma DivideMultiple(p: int, x: int, r: int)
    requires p > 0
    ensures (p * x + r) / p == x + r / p
  {
    var d := r / p;
    var e := r % p;
    assert r == p * d + e;
    assert p * x + r == p * (x + d) + e;
    QuotientIsUnique(p, x + d, e, p * x + r);
  }

  lemma QuotientIsUnique(p: int, d: int, e: int, v: int)
    requires p > 0 && 0 <= e < p && v == p * d + e
    ensures v / p == d && v % p == e
  {
    var d', e' := v / p, v % p;
    ProductBound(p, d - d', e' - e);
  }

  lemma ProductBound(p: int, k: int, x: int)
    requires p * k == x && -p < x < p
    ensures k == 0
  {
  }

  lemma MultipleDivides(p: int, x: int)
    requires p > 0
    ensures p * x / p == x
  {
    QuotientIsUnique(p, x, 0, p * x);
  }

  lemma DivideOrdered(x: int, y: int, p: int)
    requires p > 0 && x <= y
    ensures x / p <= y / p
  {
    var d, e, d', e' := x / p, x % p, y / p, y % p;
    assert x == p * d + e && y == p * d' + e';
    if d > d' {
      Larger(p, d, d' + 1);
    }
  }

  lemma Larger(p: int, x: int, y: int)
    requires p > 0 && x >= y
    ensures p * x >= p * y
  {
  }

  lemma RemainderOfSum(p: int, q: int, r: int)
    requires p > 0
    ensures (p * q + r) % p == r % p
  {
    var d, e := r / p, r % p;
    assert r == p * d + e && p * q + r == p * (q + d) + e;
    QuotientIsUnique(p, q + d, e, p * q + r);
  }

  lemma DivideTwice(v: nat, p: nat, q: nat)
    requires p > 0 && q > 0
    ensures p * q > 0 && v / p / q == v / (p * q)
  {
    var h, b := v / p, v % p;
    var d, e := h / q, h % q;
    assert v == p * h + b && h == q * d + e;
    Larger(p, q - 1, e);
    Distributed(p, q, d, e);
    QuotientIsUnique(p * q, d, p * e + b, v);
  }

  lemma Distributed(p: int, q: int, d: int, e: int)
    ensures p * (q * d + e) == p * q * d + p * e && p * (q - 1) == p * q - p
  {
  }

  lemma RemainderOfMultiple(x: int, y: int)
    ensures (256 * x + y) % 256 == y % 256
  {
  }

  lemma OneMore(p: int, k: int)
    ensures p * k == p + p * (k - 1)
  {
  }
}
