/** Integer facts shared by the ciphers: powers, Euclidean division and congruence. */
module Arith {

  function Pow(b: nat, e: nat): (r: nat)
    ensures b > 0 ==> r > 0
  {
    if e == 0 then 1 else b * Pow(b, e - 1)
  }

  function Pow2(e: nat): (r: nat)
    ensures r > 0
  {
    Pow(2, e)
  }

  lemma {:induction false} PowAdd(b: nat, d: nat, e: nat)
    ensures Pow(b, d + e) == Pow(b, d) * Pow(b, e)
  {
    if d == 0 {
    } else {
      PowAdd(b, d - 1, e);
      assert b * (Pow(b, d - 1) * Pow(b, e)) == (b * Pow(b, d - 1)) * Pow(b, e);
    }
  }

  lemma {:induction false} PowMonotone(b: nat, d: nat, e: nat)
    requires b > 0 && d <= e
    ensures Pow(b, d) <= Pow(b, e)
  {
    PowAdd(b, e - d, d);
    assert Pow(b, e - d) >= 1;
    MulLe(1, Pow(b, e - d), Pow(b, d));
  }

  lemma MulLe(a: int, b: int, c: nat)
    requires a <= b
    ensures a * c <= b * c
  {
  }

  /** Quotient and remainder are the only pair with the defining property. */
  lemma DivModUnique(x: int, q: int, r: int, n: int)
    requires n > 0 && 0 <= r < n && x == q * n + r
    ensures x / n == q && x % n == r
  {
    var d := q - x / n;
    assert x == (x / n) * n + x % n;
    assert d * n == x % n - r by {
      assert d * n == q * n - (x / n) * n;
    }
    if d >= 1 {
      MulLe(1, d, n);
    } else if d <= -1 {
      MulLe(d, -1, n);
    }
  }

  lemma ModShift(x: int, k: int, n: int)
    requires n > 0
    ensures (x + k * n) % n == x % n
  {
    var q, r := x / n, x % n;
    assert x + k * n == (q + k) * n + r;
    DivModUnique(x + k * n, q + k, r, n);
  }

  /** `a` and `b` leave the same remainder. */
  predicate Cong(a: int, b: int, n: int)
    requires n > 0
  {
    a % n == b % n
  }

  lemma CongQuotient(a: int, b: int, n: int) returns (k: int)
    requires n > 0 && Cong(a, b, n)
    ensures a == b + k * n
  {
    k := a / n - b / n;
    assert a == (a / n) * n + a % n && b == (b / n) * n + b % n;
    assert k * n == (a / n) * n - (b / n) * n;
  }

  lemma CongMod(a: int, n: int)
    requires n > 0
    ensures Cong(a % n, a, n)
  {
    DivModUnique(a % n, 0, a % n, n);
  }

  lemma CongAdd(a: int, b: int, c: int, d: int, n: int)
    requires n > 0 && Cong(a, b, n) && Cong(c, d, n)
    ensures Cong(a + c, b + d, n)
  {
    var j := CongQuotient(a, b, n);
    var k := CongQuotient(c, d, n);
    assert a + c == (b + d) + (j + k) * n;
    ModShift(b + d, j + k, n);
  }

  lemma CongSub(a: int, b: int, c: int, d: int, n: int)
    requires n > 0 && Cong(a, b, n) && Cong(c, d, n)
    ensures Cong(a - c, b - d, n)
  {
    var j := CongQuotient(a, b, n);
    var k := CongQuotient(c, d, n);
    assert a - c == (b - d) + (j - k) * n;
    ModShift(b - d, j - k, n);
  }

  lemma CongTimes(a: int, b: int, c: int, n: int)
    requires n > 0 && Cong(a, b, n)
    ensures Cong(a * c, b * c, n)
  {
    var k := CongQuotient(a, b, n);
    ShiftedProduct(a, b, k, n, c);
    ModShift(b * c, k * c, n);
  }

  lemma ShiftedProduct(a: int, b: int, k: int, n: int, c: int)
    requires a == b + k * n
    ensures a * c == b * c + (k * c) * n
  {
    var t := k * n;
    assert (b + t) * c == b * c + t * c;
    assert t * c == (k * c) * n;
  }

  lemma CongMul(a: int, b: int, c: int, d: int, n: int)
    requires n > 0 && Cong(a, b, n) && Cong(c, d, n)
    ensures Cong(a * c, b * d, n)
  {
    CongTimes(a, b, c, n);
    CongTimes(c, d, b, n);
    assert c * b == b * c && d * b == b * d;
  }
}
