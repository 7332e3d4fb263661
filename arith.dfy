/** Small facts of integer and real arithmetic that the solver does not find on its own. */
module Arith {

  lemma MulNonneg(a: int, b: int)
    requires a >= 0 && b >= 0
    ensures a * b >= 0
  {
  }

  lemma MulGe(j: int, m: int)
    requires j >= 1 && m >= 0
    ensures j * m >= m
  {
    MulNonneg(j - 1, m);
    assert j * m == (j - 1) * m + m;
  }

  lemma MulNeg(k: int, m: int)
    ensures (-k) * m == -(k * m)
  {
  }

  lemma MulSmall(k: int, m: int)
    requires m > 0 && -m < k * m < m
    ensures k == 0
  {
    MulNeg(k, m);
    if k >= 1 {
      MulGe(k, m);
    } else if k <= -1 {
      MulGe(-k, m);
    }
  }

  /** Quotient and remainder are determined by `x == q * m + r` with `0 <= r < m`. */
  lemma DivModUnique(x: int, m: int, q: int, r: int)
    requires m > 0 && x == q * m + r && 0 <= r < m
    ensures x / m == q && x % m == r
  {
    var q0, r0 := x / m, x % m;
    assert x == q0 * m + r0;
    assert (q - q0) * m == r0 - r;
    MulSmall(q - q0, m);
  }

  lemma MulDivExact(k: int, m: int)
    requires m > 0
    ensures (k * m) / m == k && (k * m) % m == 0
  {
    DivModUnique(k * m, m, k, 0);
  }

  lemma MulLeMono(a: int, b: int, m: int)
    requires a <= b && m >= 0
    ensures a * m <= b * m
  {
    MulNonneg(b - a, m);
    assert b * m - a * m == (b - a) * m;
  }

  /** `x / y` is the unique `q` with `x == q * y`. */
  lemma RealDivUnique(x: real, y: real, q: real)
    requires y != 0.0 && x == q * y
    ensures x / y == q
  {
  }

  lemma RealCancel(x: real, y: real, k: real)
    requires y != 0.0 && k != 0.0
    ensures (x * k) / (y * k) == x / y
  {
    var q := x / y;
    assert x == q * y;
    assert x * k == q * (y * k);
    RealDivUnique(x * k, y * k, q);
  }

  lemma RealAddFrac(an: real, ad: real, bn: real, bd: real)
    requires ad != 0.0 && bd != 0.0
    ensures (an * bd + bn * ad) / (ad * bd) == an / ad + bn / bd
  {
    var x, y := an / ad, bn / bd;
    assert an == x * ad && bn == y * bd;
    assert an * bd + bn * ad == (x + y) * (ad * bd);
    RealDivUnique(an * bd + bn * ad, ad * bd, x + y);
  }

  lemma RealMulFrac(an: real, ad: real, bn: real, bd: real)
    requires ad != 0.0 && bd != 0.0
    ensures (an * bn) / (ad * bd) == (an / ad) * (bn / bd)
  {
    var x, y := an / ad, bn / bd;
    assert an == x * ad && bn == y * bd;
    assert an * bn == (x * y) * (ad * bd);
    RealDivUnique(an * bn, ad * bd, x * y);
  }

  lemma RealDivFrac(an: real, ad: real, bn: real, bd: real)
    requires ad != 0.0 && bd != 0.0 && bn != 0.0
    ensures (an * bd) / (ad * bn) == (an / ad) / (bn / bd)
  {
    var x, y := an / ad, bn / bd;
    assert an == x * ad && bn == y * bd;
    assert y != 0.0;
    var q := x / y;
    assert x == q * y;
    assert an * bd == q * (ad * bn);
    RealDivUnique(an * bd, ad * bn, q);
  }

  lemma RealSubFrac(an: real, ad: real, bn: real, bd: real)
    requires ad != 0.0 && bd != 0.0
    ensures (an * bd - bn * ad) / (ad * bd) == an / ad - bn / bd
  {
    var x, y := an / ad, bn / bd;
    assert an == x * ad && bn == y * bd;
    assert an * bd - bn * ad == (x - y) * (ad * bd);
    RealDivUnique(an * bd - bn * ad, ad * bd, x - y);
  }

  lemma RealCross(an: real, ad: real, bn: real, bd: real)
    requires ad != 0.0 && bd != 0.0 && an / ad == bn / bd
    ensures an * bd == bn * ad
  {
    var x := an / ad;
    assert an == x * ad && bn == x * bd;
  }

  lemma MulNonzero(a: int, b: int)
    requires a != 0 && b != 0
    ensures a * b != 0
  {
  }

  lemma MulCancel(a: int, b: int, m: int)
    requires m != 0 && a * m == b * m
    ensures a == b
  {
    assert (a - b) * m == 0;
  }

  lemma MulOneBound(h: int, g: int)
    requires g > 0 && h > 0 && g * h <= g
    ensures h == 1
  {
    assert g * h == (h - 1) * g + g;
    if h >= 2 {
      MulGe(h - 1, g);
    }
  }

  /** (a + 1) * b = a * b + b. */
  lemma MulSucc(a: int, b: int)
    ensures (a + 1) * b == a * b + b
  {
  }
}
