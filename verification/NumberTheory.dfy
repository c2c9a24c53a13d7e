/** Elementary number theory for the ciphers: primes, Fermat's theorem and its lift to squares. */
module NumberTheory {
  import opened Arith

  predicate Prime(q: nat) { q >= 2 && forall d :: 1 < d < q ==> q % d != 0 }

  lemma {:induction false} EuclidReduced(q: nat, a: nat, b: int)
    requires Prime(q) && 0 < a < q && (a * b) % q == 0
    ensures b % q == 0
    decreases a
  {
    if a == 1 {
    } else {
      EuclidStep(q, a, b);
      EuclidReduced(q, q % a, b);
    }
  }

  lemma EuclidStep(q: nat, a: nat, b: int)
    requires 0 < a < q && (a * b) % q == 0
    ensures ((q % a) * b) % q == 0
  {
    var t, r := q / a, q % a;
    CongMul(t, t, a * b, 0, q);
    ModShift(0, b, q);
    CongSub(b * q, 0, t * (a * b), 0, q);
    Remainder(q, a, t, r, b);
  }

  lemma Remainder(q: int, a: int, t: int, r: int, b: int)
    requires q == t * a + r
    ensures r * b == b * q - t * (a * b)
  {
    assert b * q == b * (t * a) + b * r;
    assert b * (t * a) == t * (a * b);
  }

  /** A prime divides a product only if it divides a factor. */
  lemma Euclid(q: nat, a: int, b: int)
    requires Prime(q) && a % q != 0
    ensures (a * b) % q == 0 <==> b % q == 0
  {
    CongMod(a, q);
    CongMul(a % q, a, b, b, q);
    if (a * b) % q == 0 {
      EuclidReduced(q, a % q, b);
    } else if b % q == 0 {
      CongMul(a, a, b, 0, q);
    }
  }

  // ---------------------------------------------------------------------------------------------
  // Powers
  // ---------------------------------------------------------------------------------------------

  lemma {:induction false} PowPow(b: nat, j: nat, k: nat)
    ensures Pow(b, j * k) == Pow(Pow(b, j), k)
  {
    if k == 0 {
    } else {
      PowPow(b, j, k - 1);
      assert j * k == j + j * (k - 1);
      PowAdd(b, j, j * (k - 1));
    }
  }

  lemma {:induction false} PowProduct(a: nat, b: nat, k: nat)
    ensures Pow(a * b, k) == Pow(a, k) * Pow(b, k)
  {
    if k == 0 {
    } else {
      PowProduct(a, b, k - 1);
      Interchange(a, b, Pow(a, k - 1), Pow(b, k - 1));
    }
  }

  lemma Interchange(a: int, b: int, c: int, d: int)
    ensures (a * b) * (c * d) == (a * c) * (b * d)
  {
    assert (a * b) * (c * d) == a * (b * (c * d));
    assert b * (c * d) == c * (b * d);
  }

  lemma {:induction false} PowOne(k: nat)
    ensures Pow(1, k) == 1
  {
    if k > 0 {
      PowOne(k - 1);
    }
  }

  lemma {:induction false} CongPow(a: nat, b: nat, k: nat, n: nat)
    requires n > 0 && Cong(a, b, n)
    ensures Cong(Pow(a, k), Pow(b, k), n)
  {
    if k > 0 {
      CongPow(a, b, k - 1, n);
      CongMul(a, b, Pow(a, k - 1), Pow(b, k - 1), n);
    }
  }

  /** (1 + as)^v = 1 + vas modulo s^2. */
  lemma {:induction false} PowOnePlus(a: nat, s: nat, v: nat)
    requires s > 0
    ensures Cong(Pow(1 + a * s, v), 1 + v * (a * s), s * s)
  {
    if v > 0 {
      var t := a * s;
      PowOnePlus(a, s, v - 1);
      CongMul(1 + t, 1 + t, Pow(1 + t, v - 1), 1 + (v - 1) * t, s * s);
      assert (1 + t) * (1 + (v - 1) * t) == 1 + v * t + ((v - 1) * (a * a)) * (s * s) by {
        assert t * t == (a * a) * (s * s) by { Interchange(a, s, a, s); }
        assert (1 + t) * (1 + (v - 1) * t) == 1 + v * t + (v - 1) * (t * t);
        assert (v - 1) * ((a * a) * (s * s)) == ((v - 1) * (a * a)) * (s * s);
      }
      ModShift(1 + v * t, (v - 1) * (a * a), s * s);
    }
  }

  // ---------------------------------------------------------------------------------------------
  // Binomial coefficients
  // ---------------------------------------------------------------------------------------------

  function Choose(n: nat, k: nat): nat {
    if k == 0 then 1 else if n == 0 then 0 else Choose(n - 1, k - 1) + Choose(n - 1, k)
  }

  lemma {:induction false} ChooseAbove(n: nat, k: nat)
    requires k > n
    ensures Choose(n, k) == 0
  {
    if n > 0 {
      ChooseAbove(n - 1, k - 1);
      ChooseAbove(n - 1, k);
    }
  }

  lemma {:induction false} Absorb(n: nat, k: nat)
    requires n > 0 && k > 0
    ensures k * Choose(n, k) == n * Choose(n - 1, k - 1)
  {
    if n == 1 {
      if k > 1 {
        ChooseAbove(1, k);
        ChooseAbove(0, k - 1);
      }
    } else {
      Absorb(n - 1, k);
      if k > 1 {
        Absorb(n - 1, k - 1);
      }
      var a, b, c := Choose(n - 1, k - 1), Choose(n - 1, k), Choose(n - 2, k - 1);
      var d := if k > 1 then Choose(n - 2, k - 2) else 0;
      assert Choose(n, k) == a + b && a == d + (if k > 1 then c else 1);
      assert k * b == (n - 1) * c;
      assert (k - 1) * a == (n - 1) * d;
      AbsorbStep(n, k, a, b, c, d);
    }
  }

  lemma AbsorbStep(n: int, k: int, a: int, b: int, c: int, d: int)
    requires k * b == (n - 1) * c && (k - 1) * a == (n - 1) * d
    requires a == d + c || (k == 1 && a == 1 && c == 1)
    ensures k * (a + b) == n * a
  {
    assert k * (a + b) == (k - 1) * a + a + k * b;
    if a == d + c {
      assert (n - 1) * d + (n - 1) * c == (n - 1) * (d + c);
    }
  }

  /** The first k terms of (1 + a)^n. */
  function BinSum(n: nat, a: nat, k: nat): nat {
    if k == 0 then 0 else BinSum(n, a, k - 1) + Choose(n, k - 1) * Pow(a, k - 1)
  }

  lemma BinFirst(n: nat, a: nat)
    ensures BinSum(n, a, 1) == 1 && BinSum(n, a, 0) == 0
  {
    assert Choose(n, 0) == 1 && Pow(a, 0) == 1;
    assert BinSum(n, a, 1) == BinSum(n, a, 0) + Choose(n, 0) * Pow(a, 0);
  }

  lemma {:induction false} BinStep(n: nat, a: nat, k: nat)
    ensures BinSum(n + 1, a, k + 1) == BinSum(n, a, k + 1) + a * BinSum(n, a, k)
  {
    if k == 0 {
      BinFirst(n, a);
      BinFirst(n + 1, a);
    } else {
      BinStep(n, a, k - 1);
      assert Pow(a, k) == a * Pow(a, k - 1);
      BinTerm(Choose(n, k - 1), Choose(n, k), a, Pow(a, k - 1), BinSum(n, a, k - 1));
    }
  }

  lemma BinTerm(c: nat, d: nat, a: nat, p: nat, s: nat)
    ensures (c + d) * (a * p) == d * (a * p) + a * (c * p)
    ensures a * (s + c * p) == a * s + a * (c * p)
  {
    assert (c + d) * (a * p) == c * (a * p) + d * (a * p);
    assert c * (a * p) == a * (c * p);
  }

  lemma {:induction false} BinomialTheorem(n: nat, a: nat)
    ensures BinSum(n, a, n + 1) == Pow(a + 1, n)
  {
    if n == 0 {
      BinFirst(0, a);
    } else {
      BinomialTheorem(n - 1, a);
      BinStep(n - 1, a, n);
      ChooseAbove(n - 1, n);
      assert BinSum(n - 1, a, n + 1) == BinSum(n - 1, a, n);
      assert (a + 1) * Pow(a + 1, n - 1) == Pow(a + 1, n - 1) + a * Pow(a + 1, n - 1);
    }
  }

  // ---------------------------------------------------------------------------------------------
  // Fermat
  // ---------------------------------------------------------------------------------------------

  lemma ChoosePrime(p: nat, k: nat)
    requires Prime(p) && 0 < k < p
    ensures Choose(p, k) % p == 0
  {
    Absorb(p, k);
    ModShift(0, Choose(p - 1, k - 1), p);
    assert p * Choose(p - 1, k - 1) == Choose(p - 1, k - 1) * p;
    DivModUnique(k, 0, k, p);
    Euclid(p, k, Choose(p, k));
  }

  lemma {:induction false} BinSumPrime(p: nat, a: nat, k: nat)
    requires Prime(p) && 1 <= k <= p
    ensures Cong(BinSum(p, a, k), 1, p)
  {
    if k == 1 {
      BinFirst(p, a);
    } else {
      BinSumPrime(p, a, k - 1);
      ChoosePrime(p, k - 1);
      CongMul(Choose(p, k - 1), 0, Pow(a, k - 1), Pow(a, k - 1), p);
      CongAdd(BinSum(p, a, k - 1), 1, Choose(p, k - 1) * Pow(a, k - 1), 0, p);
    }
  }

  lemma {:induction false} ChooseAll(n: nat)
    ensures Choose(n, n) == 1
  {
    if n > 0 {
      ChooseAll(n - 1);
      ChooseAbove(n - 1, n);
    }
  }

  lemma {:induction false} FermatPower(p: nat, a: nat)
    requires Prime(p)
    ensures Cong(Pow(a, p), a, p)
  {
    if a == 0 {
      assert Pow(0, p) == 0 * Pow(0, p - 1);
    } else {
      FermatPower(p, a - 1);
      BinomialTheorem(p, a - 1);
      BinSumPrime(p, a - 1, p);
      ChooseAll(p);
      CongAdd(BinSum(p, a - 1, p), 1, Pow(a - 1, p), a - 1, p);
    }
  }

  lemma Fermat(p: nat, a: nat)
    requires Prime(p) && a % p != 0
    ensures Cong(Pow(a, p - 1), 1, p)
  {
    var y := Pow(a, p - 1);
    FermatPower(p, a);
    assert Pow(a, p) == a * y;
    assert a * (y - 1) == a * y - a;
    CongSub(a * y, a, a, a, p);
    Euclid(p, a, y - 1);
    CongAdd(y - 1, 0, 1, 1, p);
  }

  /** The order of a unit modulo p^2 divides p(p - 1). */
  lemma {:induction false} OrderSquare(p: nat, a: nat)
    requires Prime(p) && a % p != 0
    ensures Cong(Pow(a, (p - 1) * p), 1, p * p)
  {
    var y := Pow(a, p - 1);
    Fermat(p, a);
    PowPow(a, p - 1, p);
    PowerOfOnePlus(y, p);
  }

  /** A number that is 1 modulo p is, raised to the power p, 1 modulo p^2. */
  lemma PowerOfOnePlus(y: nat, p: nat)
    requires p > 1 && Cong(y, 1, p) && p * p > 0
    ensures Cong(Pow(y, p), 1, p * p)
  {
    DivModUnique(1, 0, 1, p);
    var k := y / p;
    assert y == 1 + k * p;
    PowOnePlus(k, p, p);
    assert p * (k * p) == k * (p * p);
    ModShift(1, k, p * p);
  }

  lemma OrderMultiple(p: nat, a: nat, k: nat)
    requires Prime(p) && a % p != 0
    ensures Cong(Pow(a, ((p - 1) * p) * k), 1, p * p)
  {
    OrderSquare(p, a);
    PowPow(a, (p - 1) * p, k);
    CongPow(Pow(a, (p - 1) * p), 1, k, p * p);
    PowOne(k);
  }

  /** p^2 - p. */
  function Order(p: nat): (r: nat)
    requires p >= 2
    ensures r == (p - 1) * p && r >= 2
  {
    MulLe(2, p, p);
    assert (p - 1) * p == p * p - p;
    p * p - p
  }

  lemma ReduceUnit(p: nat, a: nat, e: nat)
    requires Prime(p) && a % p != 0
    ensures Cong(Pow(a, e % Order(p)), Pow(a, e), p * p)
  {
    var order := Order(p);
    var k, r := e / order, e % order;
    assert e == order * k + r;
    PowAdd(a, order * k, r);
    OrderMultiple(p, a, k);
    CongMul(Pow(a, order * k), 1, Pow(a, r), Pow(a, r), p * p);
  }

  lemma PowTwoOff(a: nat, e: nat)
    requires e >= 2
    ensures Pow(a, e) == (a * a) * Pow(a, e - 2)
  {
    var rest := Pow(a, e - 2);
    assert Pow(a, e) == a * Pow(a, e - 1) && Pow(a, e - 1) == a * rest;
    Regroup(a, rest);
  }

  lemma SquareMultiple(k: int, p: nat, rest: int)
    requires p > 0
    ensures (((p * k) * (p * k)) * rest) % (p * p) == 0
  {
    Interchange(p, k, p, k);
    var s, t := p * p, k * k;
    assert (s * t) * rest == (t * rest) * s;
    ModShift(0, t * rest, s);
  }

  lemma PowNonUnit(p: nat, a: nat, e: nat)
    requires p >= 2 && a % p == 0 && e >= 2
    ensures Pow(a, e) % (p * p) == 0
  {
    var k := Multiple(a, p);
    PowTwoOff(a, e);
    SquareMultiple(k, p, Pow(a, e - 2));
  }

  /** When reducing an exponent modulo p^2 - p leaves a power modulo p^2 unchanged. */
  predicate Reducible(p: nat, a: nat, e: nat)
    requires p >= 2
  {
    || a % p != 0
    || e < Order(p)
    || e % Order(p) >= 2
    || (e % Order(p) == 1 && a % (p * p) == 0)
  }

  lemma {:induction false} ReduceExponent(p: nat, a: nat, e: nat)
    requires Prime(p)
    ensures Cong(Pow(a, e % Order(p)), Pow(a, e), p * p) <==> Reducible(p, a, e)
  {
    if a % p != 0 {
      ReduceUnit(p, a, e);
    } else if e < Order(p) {
      DivModUnique(e, 0, e, Order(p));
    } else {
      PowNonUnit(p, a, e);
      var r := e % Order(p);
      if r >= 2 {
        PowNonUnit(p, a, r);
      } else if r == 1 {
        assert Pow(a, 1) == a * Pow(a, 0);
      } else {
        MulLe(2, p, p);
        DivModUnique(1, 0, 1, p * p);
      }
    }
  }

  lemma DivisibleTwice(p: nat, q: nat, w: int, u: int)
    requires Prime(q) && p % q != 0 && p * (p * w) == q * u
    ensures w % q == 0
  {
    ModShift(0, u, q);
    assert q * u == u * q;
    Euclid(q, p, p * w);
    Euclid(q, p, w);
  }

  lemma Cancel(q: nat, a: int, b: int)
    requires q > 0 && q * a == q * b
    ensures a == b
  {
    DivModUnique(q * a, a, 0, q);
    DivModUnique(q * b, b, 0, q);
  }

  lemma PullOut(p: int, q: int, v: int)
    ensures p * (p * (q * v)) == q * (p * (p * v))
  {
    assert p * (q * v) == q * (p * v);
    assert p * (q * (p * v)) == q * (p * (p * v));
  }

  lemma Multiple(z: int, m: nat) returns (k: int)
    requires m > 0 && z % m == 0
    ensures z == m * k
  {
    k := z / m;
  }

  /** A common multiple of p^2 and q^2 is a multiple of their product. */
  lemma CoprimeSquares(p: nat, q: nat, z: int)
    requires Prime(p) && Prime(q) && p != q && z % (p * p) == 0 && z % (q * q) == 0
    ensures z % ((p * q) * (p * q)) == 0
  {
    PrimesApart(p, q);
    var w := Multiple(z, p * p);
    var u := Multiple(z, q * q);
    Regroup(p, w);
    Regroup(q, u);
    var t := TakeOut(p, q, w, u);
    Squares(p, q, t);
    ModShift(0, t, (p * q) * (p * q));
  }

  lemma TakeOut(p: nat, q: nat, w: int, u: int) returns (t: int)
    requires Prime(q) && p % q != 0 && p * (p * w) == q * (q * u)
    ensures w == q * (q * t)
  {
    DivisibleTwice(p, q, w, q * u);
    var v := Multiple(w, q);
    PullOut(p, q, v);
    Cancel(q, q * u, p * (p * v));
    DivisibleTwice(p, q, v, u);
    t := Multiple(v, q);
  }

  lemma Regroup(p: int, w: int)
    ensures (p * p) * w == p * (p * w)
  {
  }

  lemma Squares(p: int, q: int, t: int)
    ensures p * (p * (q * (q * t))) == t * ((p * q) * (p * q))
  {
    Regroup(q, t);
    Regroup(p, (q * q) * t);
    Interchange(p, q, p, q);
    assert (p * p) * ((q * q) * t) == ((p * p) * (q * q)) * t;
  }

  lemma PrimesApart(p: nat, q: nat)
    requires Prime(p) && Prime(q) && p != q
    ensures p % q != 0
  {
    if p < q {
      DivModUnique(p, 0, p, q);
    }
  }

  lemma CongSquares(p: nat, q: nat, a: int, b: int)
    requires Prime(p) && Prime(q) && p != q
    requires Cong(a, b, p * p) && Cong(a, b, q * q)
    ensures Cong(a, b, (p * q) * (p * q))
  {
    CongSub(a, b, b, b, p * p);
    CongSub(a, b, b, b, q * q);
    CoprimeSquares(p, q, a - b);
    CongAdd(a - b, 0, b, b, (p * q) * (p * q));
  }
}
