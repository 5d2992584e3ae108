/** Exact comparison of the ratios the detector computes in floating point.
    A distance |A xor B| / |A or B| is kept as the pair (num, den) and compared
    by cross-multiplication. A pair with den == 0 stands for the IEEE 0/0
    (not-a-number) quotient: like a NaN it is never less than anything, and
    nothing is less than it. */
module Rational {

  datatype Ratio = Ratio(num: nat, den: nat)

  /** The ratios a set-size quotient can produce: 0 <= num <= den. */
  predicate Proper(a: Ratio)
  {
    a.num <= a.den
  }

  /** `a < b` on the quotients num/den. */
  predicate Lt(a: Ratio, b: Ratio)
  {
    a.num * b.den < b.num * a.den
  }

  /** The not-a-number quotient 0/0 compares false on both sides. */
  lemma NaNIsIncomparable(a: Ratio, b: Ratio)
    requires Proper(a) && a.den == 0
    ensures !Lt(a, b) && !Lt(b, a)
  {
  }

  /** Lt agrees with the order of the rationals when both denominators are positive. */
  lemma LtMeansLess(a: Ratio, b: Ratio)
    requires a.den > 0 && b.den > 0
    ensures Lt(a, b) <==> (a.num as real) / (a.den as real) < (b.num as real) / (b.den as real)
  {
    var x := (a.num as real) / (a.den as real);
    var y := (b.num as real) / (b.den as real);
    assert a.num as real == x * (a.den as real);
    assert b.num as real == y * (b.den as real);
    assert (a.num * b.den) as real == x * (a.den as real) * (b.den as real);
    assert (b.num * a.den) as real == y * (a.den as real) * (b.den as real);
    var ab := (a.den as real) * (b.den as real);
    assert ab > 0.0;
    if x < y {
      assert x * ab < y * ab;
    } else {
      assert y * ab <= x * ab;
    }
  }

  lemma MulLt(x: nat, y: nat, k: nat)
    requires x < y && k > 0
    ensures x * k < y * k
  {
  }

  lemma MulLe(x: nat, y: nat, k: nat)
    requires x <= y
    ensures x * k <= y * k
  {
  }

  /** Lt is transitive on ratios with positive denominators. */
  lemma LtTrans(a: Ratio, b: Ratio, c: Ratio)
    requires a.den > 0 && b.den > 0 && c.den > 0
    requires Lt(a, b) && Lt(b, c)
    ensures Lt(a, c)
  {
    MulLt(a.num * b.den, b.num * a.den, c.den);
    MulLt(b.num * c.den, c.num * b.den, a.den);
    assert a.num * b.den * c.den < b.num * a.den * c.den;
    assert b.num * a.den * c.den == b.num * c.den * a.den;
    assert (a.num * c.den) * b.den < (c.num * a.den) * b.den;
    if c.num * a.den <= a.num * c.den {
      MulLe(c.num * a.den, a.num * c.den, b.den);
      assert false;
    }
  }

  /** a < b and not c < b give a < c, for positive denominators. */
  lemma LtNotLtTrans(a: Ratio, b: Ratio, c: Ratio)
    requires a.den > 0 && b.den > 0 && c.den > 0
    requires Lt(a, b) && !Lt(c, b)
    ensures Lt(a, c)
  {
    // !Lt(c, b) means b <= c
    MulLt(a.num * b.den, b.num * a.den, c.den);
    MulLe(b.num * c.den, c.num * b.den, a.den);
    assert a.num * b.den * c.den < b.num * a.den * c.den;
    assert b.num * a.den * c.den == b.num * c.den * a.den;
    assert (a.num * c.den) * b.den < (c.num * a.den) * b.den;
    if c.num * a.den <= a.num * c.den {
      MulLe(c.num * a.den, a.num * c.den, b.den);
      assert false;
    }
  }
}
