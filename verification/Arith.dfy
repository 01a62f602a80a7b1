/** Facts about multiplication and division, one step at a time. */
module Arith {

  lemma MulLe(a: int, b: int, c: nat)
    requires a <= b
    ensures a * c <= b * c && c * a <= c * b
  {
  }

  lemma DivBounds(n: nat, d: nat, lo: int, hi: int)
    requires d > 0 && lo * d <= n < (hi + 1) * d
    ensures lo <= n / d <= hi
  {
    var q := n / d;
    if q < lo {
      MulLe(q + 1, lo, d);
    }
    if q > hi {
      MulLe(hi + 1, q, d);
    }
  }

  lemma Distribute(a: int, b: int, c: int)
    ensures (a + b) * c == a * c + b * c && c * (a + b) == c * a + c * b
  {
  }

  lemma Reassociate(a: int, b: int, c: int)
    ensures a * b * c == a * (b * c)
  {
  }

  lemma DivRemainder(n: nat, d: nat)
    requires d > 0
    ensures n < (n / d + 1) * d
  {
  }

  lemma DivMonotone(a: nat, b: nat, d: nat)
    requires a <= b && d > 0
    ensures a / d <= b / d
  {
    DivRemainder(b, d);
    DivBounds(a, d, 0, b / d);
  }

  lemma AtLeast(n: nat, d: nat, lo: nat)
    requires d > 0 && lo * d <= n
    ensures lo <= n / d
  {
    DivRemainder(n, d);
    DivBounds(n, d, lo, n / d);
  }

  lemma ModSmall(n: nat)
    requires n < 0x1_0000_0000
    ensures n % 0x1_0000_0000 == n
  {
  }
}
