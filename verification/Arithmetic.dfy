/** Facts about products, quotients and remainders with a variable divisor. */
module Arithmetic {

  lemma MulBound(b: nat, d: int)
    ensures d >= 1 ==> b * d >= b
    ensures d <= -1 ==> b * d <= 0 - b
  {
    if d >= 1 {
      assert b * d == b + b * (d - 1);
    } else if d <= -1 {
      assert b * d == b * (d + 1) - b;
    }
  }

  lemma DivMod(a: nat, b: nat)
    requires b > 0
    ensures a == b * (a / b) + a % b && 0 <= a % b < b
  {
  }

  lemma DivIs(a: int, b: nat, q: int, r: nat)
    requires b > 0 && a == b * q + r && r < b
    ensures a / b == q && a % b == r
  {
    var d := q - a / b;
    assert b * d == a % b - r;
    MulBound(b, d);
  }

  lemma HalfDiv(a: nat, b: nat)
    requires b > 0
    ensures a / 2 / b == a / (2 * b)
  {
    var q, r := a / (2 * b), a % (2 * b);
    assert a == 2 * (b * q) + r && 0 <= r < 2 * b;
    assert a / 2 == b * q + r / 2;
    DivIs(a / 2, b, q, r / 2);
  }

  lemma DivBelow(a: nat, m: nat, q: nat)
    requires m > 0 && a < m * q
    ensures a / m < q
  {
    var d := q - a / m;
    assert m * d > 0 - m;
    MulBound(m, d);
  }

  lemma SmallMod(x: int, m: nat)
    requires m > 0
    ensures x % m == x <==> 0 <= x < m
  {
    if 0 <= x < m {
      DivIs(x, m, 0, x);
    }
  }

  lemma MulMonotone(x: nat, y: nat, m: nat)
    requires x <= y
    ensures x * m <= y * m
  {
  }

  lemma ModAdds(r: nat, m: nat, k: nat)
    requires m > 0
    ensures (r + m * k) % m == r % m
  {
    assert r + m * k == m * (r / m + k) + r % m;
    DivIs(r + m * k, m, r / m + k, r % m);
  }

  lemma ModDouble(x: int, b: nat)
    requires b > 0
    ensures x % (2 * b) == x % b + if (x / b) % 2 == 1 then b else 0
  {
    var q, r := x / b, x % b;
    assert x == b * q + r;
    var h, odd := q / 2, q % 2;
    assert b * q == (2 * b) * h + b * odd by {
      assert q == 2 * h + odd;
    }
    DivIs(x, 2 * b, h, b * odd + r);
  }
}
