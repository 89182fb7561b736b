/** Products and quotients of reals under names that proofs can hide, so that
    the geometric lemmas reason about them only through the laws below.
 */
module Reals {

  function Mul(a: real, b: real): real {
    a * b
  }

  function Div(a: real, b: real): real
    requires b != 0.0
  {
    a / b
  }

  lemma MulDistributes(a: real, b: real, w: real)
    ensures Mul(a + b, w) == Mul(a, w) + Mul(b, w)
    ensures Mul(a - b, w) == Mul(a, w) - Mul(b, w)
  {
  }

  lemma MulCommutes(a: real, b: real)
    ensures Mul(a, b) == Mul(b, a)
  {
  }

  lemma MulAssociates(a: real, b: real, c: real)
    ensures Mul(Mul(a, b), c) == Mul(a, Mul(b, c))
  {
  }

  lemma MulUnit(a: real)
    ensures Mul(a, 1.0) == a == Mul(1.0, a)
    ensures Mul(0.0, a) == 0.0 == Mul(a, 0.0)
  {
  }

  lemma MulOrder(a: real, b: real, w: real)
    requires w > 0.0
    ensures a <= b <==> Mul(a, w) <= Mul(b, w)
    ensures a < b <==> Mul(a, w) < Mul(b, w)
    ensures a == b <==> Mul(a, w) == Mul(b, w)
  {
    assert a < b ==> (b - a) * w > 0.0;
    assert b < a ==> (a - b) * w > 0.0;
  }

  lemma MulPositive(a: real, b: real)
    requires a > 0.0 && b > 0.0
    ensures Mul(a, b) > 0.0
  {
  }

  /** Where an interval of [0, 1] lies after scaling by `w`. */
  lemma ScaledInterval(lo: real, hi: real, w: real)
    requires 0.0 <= lo < hi <= 1.0 && 0.0 < w
    ensures 0.0 <= Mul(lo, w) < Mul(hi, w) <= w
    ensures Mul(lo, w) == 0.0 <==> lo == 0.0
    ensures Mul(hi, w) == w <==> hi == 1.0
  {
    hide Mul;
    MulOrder(0.0, lo, w);
    MulOrder(lo, hi, w);
    MulOrder(hi, 1.0, w);
    MulUnit(w);
  }

  lemma DivMul(a: real, b: real)
    requires b != 0.0
    ensures Mul(Div(a, b), b) == a
    ensures Div(Mul(a, b), b) == a
  {
  }

  lemma DivIsMul(a: real, b: real)
    requires b != 0.0
    ensures Div(a, b) == Mul(a, Div(1.0, b))
  {
    hide Mul;
    hide Div;
    var inv := Div(1.0, b);
    DivMul(1.0, b);
    MulAssociates(a, inv, b);
    MulUnit(a);
    DivMul(Mul(a, inv), b);
  }

  lemma DivOne(a: real)
    ensures Div(a, 1.0) == a
  {
  }

  lemma DivDistributes(a: real, b: real, c: real)
    requires c != 0.0
    ensures Div(a + b, c) == Div(a, c) + Div(b, c)
    ensures Div(0.0, c) == 0.0
    ensures Div(c, c) == 1.0
  {
    hide Mul;
    hide Div;
    DivMul(0.0, c);
    DivMul(1.0, c);
    MulUnit(c);
    DivMul(a, c);
    DivMul(b, c);
    MulDistributes(Div(a, c), Div(b, c), c);
    DivMul(Div(a, c) + Div(b, c), c);
  }

  lemma DivPositive(a: real, b: real)
    requires a > 0.0 && b > 0.0
    ensures Div(a, b) > 0.0
    ensures b <= 1.0 ==> Div(a, b) >= a
  {
    hide Mul;
    hide Div;
    DivMul(a, b);
    MulOrder(0.0, Div(a, b), b);
    MulUnit(b);
    if b < 1.0 && Div(a, b) > 0.0 {
      MulOrder(b, 1.0, Div(a, b));
      MulUnit(Div(a, b));
      MulCommutes(Div(a, b), b);
    } else if b == 1.0 {
      MulUnit(Div(a, b));
    }
  }
}
