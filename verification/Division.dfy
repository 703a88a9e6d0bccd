/** Floor division of naturals: bounds, monotonicity, and how to recognise a quotient. */
module Division {

  lemma DivBounds(x: nat, d: nat)
    requires 0 < d
    ensures d * (x / d) <= x < d * (x / d) + d
  {
  }

  lemma MulGap(d: nat, a: int, b: int)
    ensures a < b ==> d * a + d <= d * b
  {
    if a < b {
      var c: nat := b - a - 1;
      assert d * b == d * (a + 1 + c) == d * a + d + d * c;
    }
  }

  lemma DivMono(x: nat, y: nat, d: nat)
    requires 0 < d && x <= y
    ensures x / d <= y / d
  {
    MulGap(d, y / d, x / d);
  }

  lemma DivIs(x: nat, d: nat, q: nat)
    requires 0 < d && d * q <= x < d * q + d
    ensures x / d == q
  {
    MulGap(d, x / d, q);
    MulGap(d, q, x / d);
  }
}
