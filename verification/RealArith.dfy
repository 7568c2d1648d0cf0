/** Small facts about quotients of reals. */
module RealArith {

  lemma DivUnique(x: real, y: real, d: real)
    requires d != 0.0 && x * d == y
    ensures y / d == x
  {
    var w := y / d;
    assert w * d == y;
    assert (w - x) * d == 0.0;
  }

  lemma MulOfDiv(a: real, b: real, d: real)
    requires d != 0.0
    ensures a * (b / d) == a * b / d
  {
    var w := b / d;
    assert w * d == b;
    assert a * w * d == a * (w * d);
    DivUnique(a * w, a * b, d);
  }

  lemma MulMonotone(a: real, b: real, d: real)
    requires d > 0.0
    ensures a < b ==> a * d < b * d
    ensures a <= b ==> a * d <= b * d
  {
    assert b * d - a * d == (b - a) * d;
    if a < b { assert (b - a) * d > 0.0; }
  }

  /** A quotient is below a bound exactly when the dividend is below the multiple. */
  lemma DivLess(v: real, d: real, m: real)
    requires d > 0.0
    ensures v / d < m <==> v < m * d
    ensures m < v / d <==> m * d < v
  {
    var w := v / d;
    assert w * d == v;
    MulMonotone(w, m, d);
    MulMonotone(m, w, d);
  }

  lemma DivTimes(a: real, d: real)
    requires d != 0.0
    ensures a / d * d == a
  {
  }
}
