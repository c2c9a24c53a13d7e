/** cpp/wedpr-crypto/ppc-homo/paillier/OpenSSLPaillier.cpp: additively homomorphic encryption modulo
    n^2 for n = pq, with powers computed modulo p^2 and q^2 and recombined. */
module Paillier {
  import opened Arith
  import opened Outcome
  import opened SignedCodec
  import opened NumberTheory

  // ---------------------------------------------------------------------------------------------
  // Inverses
  // ---------------------------------------------------------------------------------------------

  predicate IsInverse(a: int, b: int, m: nat) { m > 0 && 0 <= b < m && (a * b) % m == 1 }

  /** BigNum::Invert leaves its result at zero where there is no inverse. */
  ghost function Inverse(a: int, m: nat): (r: int)
    ensures if exists b :: IsInverse(a, b, m) then IsInverse(a, r, m) else r == 0
    ensures r >= 0
  {
    if exists b :: IsInverse(a, b, m) then var b :| IsInverse(a, b, m); b else 0
  }

  lemma InverseFromPower(a: nat, e: nat, m: nat)
    requires m > 1 && e > 0 && Cong(Pow(a, e), 1, m)
    ensures IsInverse(a, Inverse(a, m), m)
  {
    var b := Pow(a, e - 1);
    CongMod(b, m);
    CongMul(a, a, b % m, b, m);
    DivModUnique(1, 0, 1, m);
    assert IsInverse(a, b % m, m);
  }

  // ---------------------------------------------------------------------------------------------
  // Keys
  // ---------------------------------------------------------------------------------------------

  /** What key generation draws: two primes of one bit length and the square root of -h. */
  datatype Key = Key(p: nat, q: nat, x: nat) {
    ghost predicate Valid() {
      && Prime(p) && Prime(q) && p != q
      && p % 2 == 1 && q % 2 == 1
      && p < 2 * q && q < 2 * p
    }

    function N(): nat { p * q }
    function Square(): nat { N() * N() }
    function Lambda(): nat
      requires p > 0 && q > 0
    {
      MulLe(0, p - 1, q - 1);
      ((p - 1) * (q - 1)) / 2
    }

    function H(): int { -(x * x) }

    /** h^n modulo n^2, computed once for the public key. */
    function Hs(): nat
      requires Square() > 0
    {
      Pow(H() % Square(), N()) % Square()
    }
  }

  predicate Unit(key: Key, c: int)
    requires key.p > 0 && key.q > 0
  {
    c % key.p != 0 && c % key.q != 0
  }

  /** A mask with exponent r hides a plaintext that decryption can recover; see MaskExact. */
  predicate Sound(key: Key, r: nat)
    requires key.p > 0 && key.q > 0
  {
    r == 0 || Unit(key, key.x)
  }

  lemma Sizes(key: Key)
    requires key.Valid()
    ensures key.N() >= 6 && key.Square() >= 36
    ensures key.Square() == (key.p * key.p) * (key.q * key.q)
    ensures key.p * key.p > 1 && key.q * key.q > 1
  {
    MulLe(3, key.p, key.q);
    MulLe(6, key.N(), key.N());
    Interchange(key.p, key.q, key.p, key.q);
    MulLe(2, key.p, key.p);
    MulLe(2, key.q, key.q);
  }

  lemma CongDown(a: int, b: int, k: nat, m: nat)
    requires k > 0 && m > 0 && k * m > 0 && Cong(a, b, k * m)
    ensures Cong(a, b, m)
  {
    var j := CongQuotient(a, b, k * m);
    assert j * (k * m) == (j * k) * m;
    ModShift(b, j * k, m);
  }

  /** Congruence modulo n^2 is congruence modulo both squares. */
  lemma CongParts(key: Key, a: int, b: int)
    requires key.Valid()
    ensures key.Square() > 0
    ensures Cong(a, b, key.Square()) <==>
            Cong(a, b, key.p * key.p) && Cong(a, b, key.q * key.q)
  {
    Sizes(key);
    var s, t := key.p * key.p, key.q * key.q;
    if Cong(a, b, key.Square()) {
      CongDown(a, b, s, t);
      assert s * t == t * s;
      CongDown(a, b, t, s);
    } else if Cong(a, b, s) && Cong(a, b, t) {
      CongSquares(key.p, key.q, a, b);
    }
  }

  lemma CongPrimes(key: Key, a: int, b: int)
    requires key.Valid() && key.Square() > 0 && Cong(a, b, key.Square())
    ensures Cong(a, b, key.p) && Cong(a, b, key.q)
  {
    CongParts(key, a, b);
    Sizes(key);
    CongDown(a, b, key.p, key.p);
    CongDown(a, b, key.q, key.q);
  }

  // ---------------------------------------------------------------------------------------------
  // Powers by the Chinese remainder theorem
  // ---------------------------------------------------------------------------------------------

  function Recombine(xp: int, xq: int, pSquare: nat, qSquare: nat, inverse: int, nSquare: nat): int
    requires pSquare > 0 && nSquare > 0
  {
    ((((xp - xq) * inverse) % pSquare) * qSquare + xq) % nSquare
  }

  /** powerModSqrtCrt. */
  ghost function CrtPower(key: Key, base: nat, exp: nat): int
    requires key.Valid()
  {
    Sizes(key);
    var pSquare, qSquare := key.p * key.p, key.q * key.q;
    var xp := Pow(base % pSquare, exp % Order(key.p)) % pSquare;
    var xq := Pow(base % qSquare, exp % Order(key.q)) % qSquare;
    Recombine(xp, xq, pSquare, qSquare, Inverse(qSquare, pSquare), key.Square())
  }

  lemma RecombineParts(xp: int, xq: int, s: nat, t: nat, inverse: int)
    requires s > 1 && t > 1 && 0 <= xp < s && 0 <= xq < t && IsInverse(t, inverse, s) && s * t > 0
    ensures var r := Recombine(xp, xq, s, t, inverse, s * t);
            0 <= r < s * t && Cong(r, xp, s) && Cong(r, xq, t)
  {
    var d := (xp - xq) * inverse;
    var k := d % s;
    var sum := k * t + xq;
    MulLe(0, k, t);
    MulLe(k, s - 1, t);
    assert (s - 1) * t == s * t - t;
    DivModUnique(sum, 0, sum, s * t);
    ModShift(xq, k, t);
    RecombineFirst(xp, xq, s, t, inverse, k);
  }

  lemma RecombineFirst(xp: int, xq: int, s: nat, t: nat, inverse: int, k: int)
    requires s > 1 && IsInverse(t, inverse, s) && k == ((xp - xq) * inverse) % s
    ensures Cong(k * t + xq, xp, s)
  {
    var d := (xp - xq) * inverse;
    CongMod(d, s);
    CongMul(k, d, t, t, s);
    DivModUnique(1, 0, 1, s);
    CongMul(xp - xq, xp - xq, t * inverse, 1, s);
    assert d * t == (xp - xq) * (t * inverse);
    CongAdd(k * t, xp - xq, xq, xq, s);
  }

  lemma SquareInverse(key: Key)
    requires key.Valid()
    ensures IsInverse(key.q * key.q, Inverse(key.q * key.q, key.p * key.p), key.p * key.p)
  {
    Sizes(key);
    PrimesApart(key.q, key.p);
    Euclid(key.p, key.q, key.q);
    OrderSquare(key.p, key.q * key.q);
    InverseFromPower(key.q * key.q, Order(key.p), key.p * key.p);
  }

  lemma ReducedBase(a: nat, e: nat, m: nat)
    requires m > 0
    ensures Cong(Pow(a % m, e) % m, Pow(a, e), m)
  {
    CongMod(a, m);
    CongPow(a % m, a, e, m);
    CongMod(Pow(a % m, e), m);
  }

  lemma {:induction false} CrtPowerParts(key: Key, base: nat, exp: nat)
    requires key.Valid()
    ensures 0 <= CrtPower(key, base, exp) < key.Square()
    ensures Cong(CrtPower(key, base, exp), Pow(base, exp % Order(key.p)), key.p * key.p)
    ensures Cong(CrtPower(key, base, exp), Pow(base, exp % Order(key.q)), key.q * key.q)
  {
    Sizes(key);
    var s, t := key.p * key.p, key.q * key.q;
    var xp, xq := Pow(base % s, exp % Order(key.p)) % s, Pow(base % t, exp % Order(key.q)) % t;
    SquareInverse(key);
    RecombineParts(xp, xq, s, t, Inverse(t, s));
    ReducedBase(base, exp % Order(key.p), s);
    ReducedBase(base, exp % Order(key.q), t);
  }

  /** The fast power is the plain one exactly when both exponent reductions are sound. */
  lemma {:induction false} CrtPowerExact(key: Key, base: nat, exp: nat)
    requires key.Valid()
    ensures key.Square() > 0
    ensures CrtPower(key, base, exp) == Pow(base, exp) % key.Square()
            <==> Reducible(key.p, base, exp) && Reducible(key.q, base, exp)
  {
    Sizes(key);
    var r, full := CrtPower(key, base, exp), Pow(base, exp);
    CrtPowerParts(key, base, exp);
    ReduceExponent(key.p, base, exp);
    ReduceExponent(key.q, base, exp);
    CongParts(key, r, full);
    DivModUnique(r, 0, r, key.Square());
  }

  /** For every key there is a base, sharing a factor with n, on which the fast form is wrong. */
  lemma {:induction false} CrtPowerNotExact(key: Key)
    requires key.Valid()
    ensures key.Square() > 0
    ensures CrtPower(key, key.p, Order(key.p)) != Pow(key.p, Order(key.p)) % key.Square()
  {
    var order := Order(key.p);
    CrtPowerExact(key, key.p, order);
    DivModUnique(key.p, 1, 0, key.p);
    DivModUnique(order, 1, 0, order);
  }

  /** The exponent of decryption is below both orders, so decryption's power is exact for every base. */
  lemma {:induction false} LambdaPowerExact(key: Key, base: nat)
    requires key.Valid()
    ensures key.Square() > 0 && CrtPower(key, base, key.Lambda()) == Pow(base, key.Lambda()) % key.Square()
  {
    LambdaBelow(key.p, key.q);
    LambdaBelow(key.q, key.p);
    assert (key.p - 1) * (key.q - 1) == (key.q - 1) * (key.p - 1);
    CrtPowerExact(key, base, key.Lambda());
  }

  lemma LambdaBelow(p: nat, q: nat)
    requires p >= 2 && 1 <= q < 2 * p
    ensures ((p - 1) * (q - 1)) / 2 < Order(p)
  {
    MulLe(q - 1, 2 * p - 2, p - 1);
    assert (2 * p - 2) * (p - 1) == 2 * ((p - 1) * p) - 2 * (p - 1);
    assert (p - 1) * (q - 1) == (q - 1) * (p - 1);
  }

  // ---------------------------------------------------------------------------------------------
  // The cipher
  // ---------------------------------------------------------------------------------------------

  /** Encryption with a random exponent r; `fast` selects the overload that knows the private key. */
  ghost function Encrypt(key: Key, m: int, r: nat, fast: bool): Result<nat>
    requires key.Valid()
  {
    Sizes(key);
    match Encode(key.N(), m)
    case Err(e) => Err(e)
    case Ok(v) =>
      var gm := (v * key.N() + 1) % key.Square();
      var mask := if fast then CrtPower(key, key.Hs(), r) else Pow(key.Hs(), r) % key.Square();
      Ok((gm * mask) % key.Square())
  }

  /** The number that decryption hands to the codec. The division truncates toward zero. */
  ghost function DecryptResidue(key: Key, c: nat): int
    requires key.Valid()
  {
    Sizes(key);
    var x := CrtPower(key, c, key.Lambda());
    var l := if x == 0 then 0 else (x - 1) / key.N();
    (l * Inverse(key.Lambda(), key.N())) % key.N()
  }

  ghost function Decrypt(key: Key, c: nat): Result<int>
    requires key.Valid()
  {
    Decode(key.N(), DecryptResidue(key, c))
  }

  function Add(key: Key, c: nat, d: nat): nat
    requires key.Square() > 0
  {
    (c * d) % key.Square()
  }

  ghost function Sub(key: Key, c: nat, d: nat): nat
    requires key.Square() > 0
  {
    Add(key, c, Inverse(d, key.Square()))
  }

  /** The scalar is encoded before use, so the codec may reject it. */
  function ScalaMul(key: Key, k: int, c: nat): Result<nat>
    requires key.N() > 0 && key.Square() > 0
  {
    match Encode(key.N(), k)
    case Err(e) => Err(e)
    case Ok(v) => Ok(Pow(c, v) % key.Square())
  }

  // ---------------------------------------------------------------------------------------------
  // What a ciphertext carries
  // ---------------------------------------------------------------------------------------------

  /** `c` carries `m`: it is a reduced unit with c^lambda = 1 + m lambda n modulo n^2. */
  ghost predicate Carries(key: Key, c: int, m: int)
    requires key.Valid()
  {
    Sizes(key);
    && 0 <= c < key.Square()
    && Unit(key, c)
    && Cong(Pow(c, key.Lambda()), 1 + (m * key.Lambda()) * key.N(), key.Square())
  }

  lemma OnePlusTimes(a: int, b: int, s: nat)
    requires s * s > 0
    ensures Cong((1 + a * s) * (1 + b * s), 1 + (a + b) * s, s * s)
  {
    Interchange(a, s, b, s);
    assert (1 + a * s) * (1 + b * s) == 1 + (a + b) * s + (a * s) * (b * s);
    ModShift(1 + (a + b) * s, a * b, s * s);
  }

  lemma UnitMod(key: Key, c: int, d: int)
    requires key.Valid() && key.Square() > 0 && Cong(c, d, key.Square())
    ensures Unit(key, c) <==> Unit(key, d)
  {
    CongPrimes(key, c, d);
  }

  lemma UnitProduct(key: Key, c: int, d: int)
    requires key.Valid() && Unit(key, c) && Unit(key, d)
    ensures Unit(key, c * d)
  {
    Euclid(key.p, c, d);
    Euclid(key.q, c, d);
  }

  lemma PowModProduct(c: nat, d: nat, l: nat, s: nat)
    requires s > 0
    ensures Cong(Pow((c * d) % s, l), Pow(c, l) * Pow(d, l), s)
  {
    MulLe(0, c, d);
    CongMod(c * d, s);
    CongPow((c * d) % s, c * d, l, s);
    PowProduct(c, d, l);
  }

  lemma CarryAdd(x: int, y: int, a: int, b: int, l: int, n: nat)
    requires n * n > 0 && Cong(x, 1 + (a * l) * n, n * n) && Cong(y, 1 + (b * l) * n, n * n)
    ensures Cong(x * y, 1 + ((a + b) * l) * n, n * n)
  {
    CongMul(x, 1 + (a * l) * n, y, 1 + (b * l) * n, n * n);
    OnePlusTimes(a * l, b * l, n);
    assert a * l + b * l == (a + b) * l;
  }

  lemma {:induction false} CarriesProduct(key: Key, c: int, d: int, a: int, b: int)
    requires key.Valid() && Carries(key, c, a) && Carries(key, d, b)
    ensures key.Square() > 0 && Carries(key, (c * d) % key.Square(), a + b)
  {
    Sizes(key);
    var s, l, n := key.Square(), key.Lambda(), key.N();
    CongMod(c * d, s);
    UnitProduct(key, c, d);
    UnitMod(key, (c * d) % s, c * d);
    PowModProduct(c, d, l, s);
    CarryAdd(Pow(c, l), Pow(d, l), a, b, l, n);
  }

  lemma CarriesOne(key: Key)
    requires key.Valid()
    ensures Carries(key, 1, 0)
  {
    Sizes(key);
    PowOne(key.Lambda());
    DivModUnique(1, 0, 1, key.p);
    DivModUnique(1, 0, 1, key.q);
    assert 1 + (0 * key.Lambda()) * key.N() == 1;
  }

  lemma {:induction false} CarriesPower(key: Key, c: int, a: int, v: nat)
    requires key.Valid() && Carries(key, c, a)
    ensures key.Square() > 0 && Carries(key, Pow(c, v) % key.Square(), v * a)
  {
    Sizes(key);
    var s := key.Square();
    if v == 0 {
      CarriesOne(key);
      DivModUnique(1, 0, 1, s);
      assert v * a == 0;
    } else {
      var rest := Pow(c, v - 1);
      CarriesPower(key, c, a, v - 1);
      CarriesProduct(key, c, rest % s, a, (v - 1) * a);
      CongMod(rest, s);
      CongMul(c, c, rest % s, rest, s);
      assert a + (v - 1) * a == v * a;
    }
  }

  /** What is carried matters modulo n only. */
  lemma CarriesCong(key: Key, c: int, a: int, b: int)
    requires key.Valid() && key.N() > 0 && Carries(key, c, a) && Cong(a, b, key.N())
    ensures Carries(key, c, b)
  {
    Sizes(key);
    var s, l, n := key.Square(), key.Lambda(), key.N();
    var k := CongQuotient(a, b, n);
    CarryShift(b, k, l, n);
    ModShift(1 + (b * l) * n, k * l, n * n);
  }

  lemma CarryShift(b: int, k: int, l: int, n: int)
    ensures 1 + ((b + k * n) * l) * n == 1 + (b * l) * n + (k * l) * (n * n)
  {
    assert (b + k * n) * l == b * l + (k * l) * n;
    assert ((k * l) * n) * n == (k * l) * (n * n);
  }

  // ---------------------------------------------------------------------------------------------
  // Encryption, subtraction and decryption
  // ---------------------------------------------------------------------------------------------

  /** Every unit has order dividing p(p - 1) q(q - 1) modulo n^2. */
  lemma UnitOrder(key: Key, c: nat, k: nat, i: nat, j: nat)
    requires key.Valid() && Unit(key, c)
    requires k == Order(key.p) * i && k == Order(key.q) * j
    ensures key.Square() > 0 && Cong(Pow(c, k), 1, key.Square())
  {
    OrderMultiple(key.p, c, i);
    OrderMultiple(key.q, c, j);
    CongParts(key, Pow(c, k), 1);
  }

  lemma CommonOrder(key: Key) returns (k: nat)
    requires key.Valid()
    ensures k > 0 && k == Order(key.p) * Order(key.q) == Order(key.q) * Order(key.p)
  {
    var i, j := Order(key.p), Order(key.q);
    MulLe(1, i, j);
    assert i * j == j * i;
    k := i * j;
  }

  lemma UnitInverse(key: Key, c: nat)
    requires key.Valid() && Unit(key, c)
    ensures IsInverse(c, Inverse(c, key.Square()), key.Square())
  {
    Sizes(key);
    var k := CommonOrder(key);
    UnitOrder(key, c, k, Order(key.q), Order(key.p));
    InverseFromPower(c, k, key.Square());
  }

  lemma InverseUnit(key: Key, c: int, d: int)
    requires key.Valid() && IsInverse(c, d, key.Square())
    ensures Unit(key, d)
  {
    Sizes(key);
    var s := key.Square();
    DivModUnique(1, 0, 1, s);
    CongPrimes(key, c * d, 1);
    DivModUnique(1, 0, 1, key.p);
    DivModUnique(1, 0, 1, key.q);
    if d % key.p == 0 {
      CongMul(c, c, d, 0, key.p);
    }
    if d % key.q == 0 {
      CongMul(c, c, d, 0, key.q);
    }
  }

  lemma InversePower(a: int, b: int, u: int, v: int, s: nat)
    requires s > 0 && Cong(a, u, s) && Cong(a * b, 1, s) && Cong(u * v, 1, s)
    ensures Cong(b, v, s)
  {
    CongMul(a, u, b * v, b * v, s);
    CongMul(a * b, 1, v, v, s);
    CongMul(u * v, 1, b, b, s);
    assert a * (b * v) == (a * b) * v;
    assert u * (b * v) == (u * v) * b;
  }

  lemma PowInverse(d: nat, i: nat, l: nat, s: nat)
    requires s > 1 && IsInverse(d, i, s)
    ensures Cong(Pow(d, l) * Pow(i, l), 1, s)
  {
    DivModUnique(1, 0, 1, s);
    MulLe(0, d, i);
    PowProduct(d, i, l);
    CongPow(d * i, 1, l, s);
    PowOne(l);
  }

  lemma OnePlusMinus(b: int, l: int, n: nat)
    requires n * n > 0
    ensures Cong((1 + (b * l) * n) * (1 + ((-b) * l) * n), 1, n * n)
  {
    OnePlusTimes(b * l, (-b) * l, n);
    assert b * l + (-b) * l == 0;
    assert 0 * n == 0;
  }

  lemma CarriesInverse(key: Key, d: int, i: int, b: int)
    requires key.Valid() && Carries(key, d, b) && IsInverse(d, i, key.Square())
    ensures Carries(key, i, -b)
  {
    Sizes(key);
    var s, l, n := key.Square(), key.Lambda(), key.N();
    InverseUnit(key, d, i);
    PowInverse(d, i, l, s);
    OnePlusMinus(b, l, n);
    InversePower(Pow(d, l), Pow(i, l), 1 + (b * l) * n, 1 + ((-b) * l) * n, s);
  }

  lemma HalfProduct(a: nat, b: nat, c: int, d: int)
    requires c == 2 * a && d == 2 * b
    ensures (c * d) / 2 == c * b == d * a
  {
    assert c * d == 2 * (c * b);
    assert c * b == d * a;
  }

  lemma LambdaDouble(key: Key)
    requires key.Valid()
    ensures key.Lambda() == (key.p - 1) * ((key.q - 1) / 2) == (key.q - 1) * ((key.p - 1) / 2)
  {
    Halves(key.p);
    Halves(key.q);
    HalfProduct((key.p - 1) / 2, (key.q - 1) / 2, key.p - 1, key.q - 1);
  }

  lemma Halves(p: nat)
    requires p % 2 == 1
    ensures p - 1 == 2 * ((p - 1) / 2)
  {
  }

  lemma LambdaOrder(p: nat, q: nat, b: nat, l: int)
    requires p >= 2 && l == (p - 1) * b
    ensures (p * q) * l == Order(p) * (q * b)
  {
    Interchange(p, q, p - 1, b);
  }

  /** lambda n is a multiple of the order modulo either square. */
  lemma LambdaMultiple(key: Key) returns (i: nat, j: nat)
    requires key.Valid()
    ensures key.N() * key.Lambda() == Order(key.p) * i == Order(key.q) * j
  {
    var a, b := (key.p - 1) / 2, (key.q - 1) / 2;
    LambdaDouble(key);
    LambdaOrder(key.p, key.q, b, key.Lambda());
    LambdaOrder(key.q, key.p, a, key.Lambda());
    assert key.p * key.q == key.q * key.p;
    MulLe(0, key.q, b);
    MulLe(0, key.p, a);
    i, j := key.q * b, key.p * a;
  }

  lemma RootUnit(key: Key)
    requires key.Valid() && key.Square() > 0 && Unit(key, key.x)
    ensures Unit(key, key.H() % key.Square())
  {
    UnitProduct(key, key.x, key.x);
    UnitNegated(key, key.x * key.x);
    CongMod(key.H(), key.Square());
    UnitMod(key, key.H() % key.Square(), key.H());
  }

  lemma UnitToLambdaN(key: Key, h: nat)
    requires key.Valid() && key.Square() > 0 && Unit(key, h)
    ensures Cong(Pow(Pow(h, key.N()), key.Lambda()), 1, key.Square())
  {
    PowPow(h, key.N(), key.Lambda());
    var i, j := LambdaMultiple(key);
    UnitOrder(key, h, key.N() * key.Lambda(), i, j);
  }

  lemma {:induction false} CarriesMask(key: Key)
    requires key.Valid() && Unit(key, key.x)
    ensures key.Square() > 0 && Carries(key, key.Hs(), 0)
  {
    Sizes(key);
    var s := key.Square();
    var h := key.H() % s;
    var full := Pow(h, key.N());
    RootUnit(key);
    UnitPower(key, h, key.N());
    CongMod(full, s);
    UnitMod(key, full % s, full);
    CongPow(full % s, full, key.Lambda(), s);
    UnitToLambdaN(key, h);
    assert 1 + (0 * key.Lambda()) * key.N() == 1;
  }

  lemma UnitNegated(key: Key, c: int)
    requires key.Valid() && Unit(key, c)
    ensures Unit(key, -c)
  {
    if (-c) % key.p == 0 {
      CongSub(0, 0, -c, 0, key.p);
    }
    if (-c) % key.q == 0 {
      CongSub(0, 0, -c, 0, key.q);
    }
  }

  lemma {:induction false} UnitPower(key: Key, c: nat, k: nat)
    requires key.Valid() && Unit(key, c)
    ensures Unit(key, Pow(c, k))
  {
    if k == 0 {
      DivModUnique(1, 0, 1, key.p);
      DivModUnique(1, 0, 1, key.q);
    } else {
      UnitPower(key, c, k - 1);
      UnitProduct(key, c, Pow(c, k - 1));
    }
  }

  lemma OneMod(v: int, p: nat, q: nat)
    requires p > 1
    ensures (v * (p * q) + 1) % p == 1
  {
    assert v * (p * q) == (v * q) * p;
    ModShift(1, v * q, p);
    DivModUnique(1, 0, 1, p);
  }

  lemma UnitOnePlus(key: Key, v: int)
    requires key.Valid()
    ensures Unit(key, v * key.N() + 1)
  {
    OneMod(v, key.p, key.q);
    OneMod(v, key.q, key.p);
    assert key.p * key.q == key.q * key.p;
  }

  lemma Rotate(l: int, v: int, n: int)
    ensures l * (v * n) == (v * l) * n
  {
  }

  lemma PowReduced(g: nat, l: nat, s: nat)
    requires s > 0
    ensures Cong(Pow(g % s, l), Pow(g, l), s)
  {
    CongMod(g, s);
    CongPow(g % s, g, l, s);
  }

  lemma MessagePower(v: nat, n: nat, l: nat, s: nat)
    requires n > 0 && s == n * n && s > 0
    ensures Cong(Pow((v * n + 1) % s, l), 1 + (v * l) * n, s)
  {
    PowReduced(v * n + 1, l, s);
    PowOnePlus(v, n, l);
    Rotate(l, v, n);
  }

  lemma CarriesMessage(key: Key, v: nat)
    requires key.Valid()
    ensures key.Square() > 0 && Carries(key, (v * key.N() + 1) % key.Square(), v)
  {
    Sizes(key);
    var g := v * key.N() + 1;
    CongMod(g, key.Square());
    UnitOnePlus(key, v);
    UnitMod(key, g % key.Square(), g);
    MessagePower(v, key.N(), key.Lambda(), key.Square());
  }

  lemma MaskCarries(key: Key, r: nat)
    requires key.Valid() && Sound(key, r)
    ensures key.Square() > 0 && Carries(key, Pow(key.Hs(), r) % key.Square(), 0)
    ensures CrtPower(key, key.Hs(), r) == Pow(key.Hs(), r) % key.Square()
  {
    Sizes(key);
    if r == 0 {
      CarriesOne(key);
      DivModUnique(1, 0, 1, key.Square());
    } else {
      CarriesMask(key);
      CarriesPower(key, key.Hs(), 0, r);
      assert r * 0 == 0;
    }
    CrtPowerExact(key, key.Hs(), r);
  }

  /** Both overloads of encryption give the same ciphertext, and it carries the plaintext. */
  lemma {:induction false} EncryptCarries(key: Key, m: int, r: nat, fast: bool)
    requires key.Valid() && Sound(key, r) && Encrypt(key, m, r, fast).Ok?
    ensures Encrypt(key, m, r, fast) == Encrypt(key, m, r, !fast)
    ensures Carries(key, Encrypt(key, m, r, fast).value, m)
  {
    Sizes(key);
    var v := Encode(key.N(), m).value;
    MaskCarries(key, r);
    CarriesMessage(key, v);
    CarriesProduct(key, (v * key.N() + 1) % key.Square(), Pow(key.Hs(), r) % key.Square(), v, 0);
    CongMod(m, key.N());
    CarriesCong(key, Encrypt(key, m, r, fast).value, v, m);
  }

  lemma MaskValue(key: Key, r: nat)
    requires key.Valid() && key.Square() > 0
    ensures Cong(Pow(key.Hs(), r) % key.Square(), Pow((0 - key.x * key.x) % key.Square(), key.N() * r), key.Square())
  {
    var s, h := key.Square(), key.H() % key.Square();
    CongMod(Pow(h, key.N()), s);
    CongPow(key.Hs(), Pow(h, key.N()), r, s);
    PowPow(h, key.N(), r);
    CongMod(Pow(key.Hs(), r), s);
  }

  lemma GeneratorPower(n: nat, v: nat, s: nat)
    requires n > 0 && s == n * n && s > 0
    ensures Cong((v * n + 1) % s, Pow(1 + n, v), s)
  {
    CongMod(v * n + 1, s);
    PowOnePlus(1, n, v);
    assert 1 * n == n;
  }

  /** The ciphertext itself, for every key: (1 + n)^m times (-x^2)^(n r) modulo n^2. */
  lemma {:induction false} EncryptValue(key: Key, m: int, r: nat)
    requires key.Valid() && Encrypt(key, m, r, false).Ok?
    ensures key.Square() > 0 && key.N() > 0
    ensures Encrypt(key, m, r, false).value
            == (Pow(1 + key.N(), m % key.N()) * Pow((0 - key.x * key.x) % key.Square(), key.N() * r)) % key.Square()
  {
    Sizes(key);
    var n, s := key.N(), key.Square();
    var v := m % n;
    GeneratorPower(n, v, s);
    MaskValue(key, r);
    CongMul((v * n + 1) % s, Pow(1 + n, v), Pow(key.Hs(), r) % s, Pow((0 - key.x * key.x) % s, n * r), s);
  }

  lemma LambdaUnit(key: Key)
    requires key.Valid()
    ensures Unit(key, key.Lambda())
  {
    LambdaDouble(key);
    LambdaUnitAt(key.p, key.q, key.Lambda());
    LambdaUnitAt(key.q, key.p, key.Lambda());
  }

  lemma LambdaUnitAt(p: nat, q: nat, l: nat)
    requires Prime(p) && 2 < q < 2 * p && l == (p - 1) * ((q - 1) / 2)
    ensures l % p != 0
  {
    var b := (q - 1) / 2;
    DivModUnique(p - 1, 0, p - 1, p);
    DivModUnique(b, 0, b, p);
    Euclid(p, p - 1, b);
  }

  lemma {:induction false} LambdaInverse(key: Key)
    requires key.Valid()
    ensures IsInverse(key.Lambda(), Inverse(key.Lambda(), key.N()), key.N())
  {
    Sizes(key);
    var l, n, s := key.Lambda(), key.N(), key.Square();
    LambdaUnit(key);
    UnitInverse(key, l);
    var b := Inverse(l, s);
    DivModUnique(1, 0, 1, s);
    CongDown(l * b, 1, n, n);
    CongMod(b, n);
    CongMul(l, l, b % n, b, n);
    DivModUnique(1, 0, 1, n);
    assert IsInverse(l, b % n, n);
  }

  /** The logarithm step: (x - 1) / n for x = 1 + kn modulo n^2 is k modulo n. */
  lemma {:induction false} Logarithm(x: int, k: int, n: nat)
    requires n > 1 && n * n > 0 && x == (1 + k * n) % (n * n)
    ensures x >= 1 && (x - 1) / n == k % n
  {
    var j, r := k / n, k % n;
    MulLe(r, n - 1, n);
    MulLe(0, r, n);
    assert (n - 1) * n == n * n - n;
    assert 1 + k * n == j * (n * n) + (1 + r * n) by {
      assert k == j * n + r;
      assert (j * n + r) * n == j * (n * n) + r * n;
    }
    DivModUnique(1 + k * n, j, 1 + r * n, n * n);
    DivModUnique(x - 1, r, 0, n);
  }

  lemma UndoLambda(m: int, l: int, i: int, n: nat)
    requires n > 1 && IsInverse(l, i, n)
    ensures (((m * l) % n) * i) % n == m % n
  {
    var t, u := m * l, l * i;
    CongMod(t, n);
    CongMul(t % n, t, i, i, n);
    DivModUnique(1, 0, 1, n);
    CongMul(m, m, u, 1, n);
    assert t * i == m * u;
  }

  lemma {:induction false} DecryptCarried(key: Key, c: int, m: int)
    requires key.Valid() && Carries(key, c, m)
    ensures key.N() > 0 && DecryptResidue(key, c) == m % key.N()
  {
    Sizes(key);
    var s, l, n := key.Square(), key.Lambda(), key.N();
    LambdaPowerExact(key, c);
    Logarithm(CrtPower(key, c, l), m * l, n);
    LambdaInverse(key);
    UndoLambda(m, l, Inverse(l, n), n);
  }

  /** The division truncates: the ciphertext 0, which no encryption under a sound mask yields, decrypts to 0. */
  lemma {:induction false} DecryptZero(key: Key, c: nat)
    requires key.Valid() && c == 0
    ensures DecryptResidue(key, c) == 0
  {
    Sizes(key);
    var l := key.Lambda();
    LambdaUnit(key);
    LambdaPowerExact(key, c);
    DivModUnique(0, 0, 0, key.p);
    assert l > 0 && Pow(c, l) == c * Pow(c, l - 1) == 0;
    DivModUnique(0, 0, 0, key.Square());
    DivModUnique(0, 0, 0, key.N());
  }

  // ---------------------------------------------------------------------------------------------
  // Expressions over ciphertexts
  // ---------------------------------------------------------------------------------------------

  datatype Expr =
    | Enc(m: int, r: nat, fast: bool)
    | Sum(left: Expr, right: Expr)
    | Diff(left: Expr, right: Expr)
    | Times(k: int, arg: Expr)

  ghost function Eval(key: Key, e: Expr): Result<nat>
    requires key.Valid()
  {
    Sizes(key);
    match e
    case Enc(m, r, fast) => Encrypt(key, m, r, fast)
    case Sum(a, b) =>
      (match (Eval(key, a), Eval(key, b))
       case (Err(x), _) => Err(x)
       case (_, Err(x)) => Err(x)
       case (Ok(c), Ok(d)) => Ok(Add(key, c, d)))
    case Diff(a, b) =>
      (match (Eval(key, a), Eval(key, b))
       case (Err(x), _) => Err(x)
       case (_, Err(x)) => Err(x)
       case (Ok(c), Ok(d)) => Ok(Sub(key, c, d)))
    case Times(k, a) =>
      (match Eval(key, a)
       case Err(x) => Err(x)
       case Ok(c) => ScalaMul(key, k, c))
  }

  /** Every plaintext and every scalar is one that the codec accepts. */
  predicate Encodable(n: nat, e: Expr)
    requires n > 0
  {
    match e
    case Enc(m, _, _) => Encode(n, m).Ok?
    case Sum(a, b) => Encodable(n, a) && Encodable(n, b)
    case Diff(a, b) => Encodable(n, a) && Encodable(n, b)
    case Times(k, a) => Encode(n, k).Ok? && Encodable(n, a)
  }

  /** Evaluation fails only where the codec rejects a plaintext or a scalar. */
  lemma {:induction false} EvalSucceeds(key: Key, e: Expr)
    requires key.Valid() && key.N() > 0
    ensures Eval(key, e).Ok? <==> Encodable(key.N(), e)
  {
    match e
    case Enc(_, _, _) =>
    case Sum(a, b) => EvalSucceeds(key, a); EvalSucceeds(key, b);
    case Diff(a, b) => EvalSucceeds(key, a); EvalSucceeds(key, b);
    case Times(_, a) => EvalSucceeds(key, a);
  }

  predicate Masks(key: Key, e: Expr)
    requires key.p > 0 && key.q > 0
  {
    match e
    case Enc(_, r, _) => Sound(key, r)
    case Sum(a, b) => Masks(key, a) && Masks(key, b)
    case Diff(a, b) => Masks(key, a) && Masks(key, b)
    case Times(_, a) => Masks(key, a)
  }

  function Plain(e: Expr): int {
    match e
    case Enc(m, _, _) => m
    case Sum(a, b) => Plain(a) + Plain(b)
    case Diff(a, b) => Plain(a) - Plain(b)
    case Times(k, a) => k * Plain(a)
  }

  lemma {:induction false} SubCarries(key: Key, c: nat, d: nat, a: int, b: int)
    requires key.Valid() && Carries(key, c, a) && Carries(key, d, b)
    ensures key.Square() > 0 && Carries(key, Sub(key, c, d), a - b)
  {
    Sizes(key);
    UnitInverse(key, d);
    CarriesInverse(key, d, Inverse(d, key.Square()), b);
    CarriesProduct(key, c, Inverse(d, key.Square()), a, -b);
  }

  lemma {:induction false} ScalaMulCarries(key: Key, k: int, c: nat, a: int)
    requires key.Valid() && key.N() > 0 && key.Square() > 0
    requires Carries(key, c, a) && ScalaMul(key, k, c).Ok?
    ensures Carries(key, ScalaMul(key, k, c).value, k * a)
  {
    var v := Encode(key.N(), k).value;
    CarriesPower(key, c, a, v);
    CongMod(k, key.N());
    CongMul(v, k, a, a, key.N());
    CarriesCong(key, Pow(c, v) % key.Square(), v * a, k * a);
  }

  /** Subtraction undoes addition, to the very ciphertext. */
  lemma {:induction false} SubUndoesAdd(key: Key, c: nat, d: nat)
    requires key.Valid() && key.Square() > 0 && c < key.Square() && Unit(key, d)
    ensures Sub(key, Add(key, c, d), d) == c && Add(key, Sub(key, c, d), d) == c
  {
    Sizes(key);
    UnitInverse(key, d);
    Undo(c, d, Inverse(d, key.Square()), key.Square());
  }

  lemma Undo(c: nat, d: int, i: int, s: nat)
    requires s > 1 && c < s && IsInverse(d, i, s)
    ensures (((c * d) % s) * i) % s == c && (((c * i) % s) * d) % s == c
  {
    DivModUnique(1, 0, 1, s);
    DivModUnique(c, 0, c, s);
    CongMul(c, c, d * i, 1, s);
    CongMod(c * d, s);
    CongMul((c * d) % s, c * d, i, i, s);
    CongMod(c * i, s);
    CongMul((c * i) % s, c * i, d, d, s);
    Reorder(c, d, i);
  }

  lemma Reorder(c: int, d: int, i: int)
    ensures (c * d) * i == c * (d * i) && (c * i) * d == c * (d * i)
  {
  }

  /** A scalar multiple is repeated addition. */
  lemma {:induction false} ScalaMulRepeats(key: Key, k: nat, c: nat)
    requires key.Valid() && key.N() > 0 && key.Square() > 0
    requires Encode(key.N(), k).Ok? && Encode(key.N(), k + 1).Ok?
    ensures ScalaMul(key, 0, c) == Ok(1)
    ensures ScalaMul(key, k, c).Ok? && ScalaMul(key, k + 1, c) == Ok(Add(key, c, ScalaMul(key, k, c).value))
  {
    Sizes(key);
    var n, s := key.N(), key.Square();
    EncodeExact(n, k);
    EncodeExact(n, k + 1);
    DivModUnique(k, 0, k, n);
    DivModUnique(k + 1, 0, k + 1, n);
    DivModUnique(0, 0, 0, n);
    DivModUnique(1, 0, 1, s);
    CongMod(Pow(c, k), s);
    CongMul(c, c, Pow(c, k) % s, Pow(c, k), s);
    assert Pow(c, k + 1) == c * Pow(c, k);
    assert Pow(c, 0) == 1;
  }

  /** Every ciphertext an expression reaches carries the expression's plain value. */
  lemma {:induction false} EvalCarries(key: Key, e: Expr)
    requires key.Valid() && Masks(key, e) && Eval(key, e).Ok?
    ensures Carries(key, Eval(key, e).value, Plain(e))
  {
    Sizes(key);
    match e
    case Enc(m, r, fast) => EncryptCarries(key, m, r, fast);
    case Sum(a, b) =>
      EvalCarries(key, a);
      EvalCarries(key, b);
      CarriesProduct(key, Eval(key, a).value, Eval(key, b).value, Plain(a), Plain(b));
    case Diff(a, b) =>
      EvalCarries(key, a);
      EvalCarries(key, b);
      SubCarries(key, Eval(key, a).value, Eval(key, b).value, Plain(a), Plain(b));
    case Times(k, a) =>
      EvalCarries(key, a);
      ScalaMulCarries(key, k, Eval(key, a).value, Plain(a));
  }

  /** The homomorphism, for every key, every random exponent and every expression. The one condition is on
      the key's x, and only if some mask is not trivial. */
  lemma {:induction false} Homomorphism(key: Key, e: Expr)
    requires key.Valid() && Masks(key, e) && Eval(key, e).Ok?
    ensures key.N() > 0
    ensures Decrypt(key, Eval(key, e).value) == Decode(key.N(), Plain(e) % key.N())
    ensures Decrypt(key, Eval(key, e).value) == Ok(Plain(e)) <==> Representable(key.N(), Plain(e))
  {
    Sizes(key);
    EvalCarries(key, e);
    DecryptCarried(key, Eval(key, e).value, Plain(e));
    DecodeResidue(key.N(), Plain(e));
  }

  // ---------------------------------------------------------------------------------------------
  // Keys whose x shares a prime with n
  // ---------------------------------------------------------------------------------------------

  ghost predicate DecryptsBack(key: Key, m: int, r: nat)
    requires key.Valid()
  {
    Encrypt(key, m, r, false).Ok? && Decrypt(key, Encrypt(key, m, r, false).value) == Ok(m)
  }

  lemma SoundDecryptsBack(key: Key, m: int, r: nat)
    requires key.Valid() && Sound(key, r) && Representable(key.N(), m)
    ensures DecryptsBack(key, m, r)
  {
    Sizes(key);
    CodecDomain(key.N(), m);
    Homomorphism(key, Enc(m, r, false));
  }

  lemma SquareDivides(key: Key, p: nat, a: int)
    requires key.Valid() && (p == key.p || p == key.q) && key.Square() > 0
    ensures Cong(a % key.Square(), a, p * p) && Cong(a % key.Square(), a, p)
  {
    CongMod(a, key.Square());
    CongParts(key, a % key.Square(), a);
    CongPrimes(key, a % key.Square(), a);
  }

  lemma RootVanishes(key: Key, p: nat)
    requires key.Valid() && (p == key.p || p == key.q) && key.x % p == 0 && key.Square() > 0
    ensures (key.H() % key.Square()) % p == 0
  {
    CongMul(key.x, 0, key.x, 0, p);
    CongSub(0, 0, key.x * key.x, 0, p);
    SquareDivides(key, p, key.H());
  }

  /** If p divides x, every mask but the trivial one is a multiple of p^2. */
  lemma MaskVanishes(key: Key, p: nat, r: nat)
    requires key.Valid() && (p == key.p || p == key.q) && key.x % p == 0 && r > 0 && key.Square() > 0
    ensures (Pow(key.Hs(), r) % key.Square()) % (p * p) == 0
  {
    Sizes(key);
    var h, s := key.H() % key.Square(), p * p;
    RootVanishes(key, p);
    PowNonUnit(p, h, key.N());
    SquareDivides(key, p, Pow(h, key.N()));
    CongMul(key.Hs(), 0, Pow(key.Hs(), r - 1), Pow(key.Hs(), r - 1), s);
    SquareDivides(key, p, Pow(key.Hs(), r));
  }

  /** Under such a mask the encodings of 0 and of -q are encrypted alike. */
  lemma Collision(p: nat, q: nat, mask: int, k: int)
    requires p > 1 && q > 0 && mask == (p * p) * k && (p * q) * (p * q) > 0
    ensures Cong((((p - 1) * q) * (p * q) + 1) * mask, mask, (p * q) * (p * q))
  {
    var n := p * q;
    var u := (p - 1) * (p * k);
    assert ((p - 1) * q) * n * mask == u * (n * n) by { CollisionProduct(p, q, k, p - 1); }
    assert (((p - 1) * q) * n + 1) * mask == mask + ((p - 1) * q) * n * mask;
    ModShift(mask, u, n * n);
  }

  lemma CollisionProduct(p: int, q: int, k: int, d: int)
    ensures (d * q) * (p * q) * ((p * p) * k) == (d * (p * k)) * ((p * q) * (p * q))
  {
    var a, b := p * q, p * k;
    assert (p * p) * k == p * b;
    assert (d * q) * a * (p * b) == (d * b) * ((q * p) * a) by {
      assert (d * q) * a == d * (q * a);
      assert (d * (q * a)) * (p * b) == (d * b) * ((q * a) * p);
      assert (q * a) * p == (q * p) * a;
    }
  }

  lemma EncodesMinus(p: nat, q: nat, n: nat)
    requires p >= 3 && q >= 2 && n == p * q
    ensures n > 0 && Representable(n, 0) && Representable(n, 0 - q)
    ensures Encode(n, 0) == Ok(0) && Encode(n, 0 - q) == Ok((p - 1) * q)
  {
    MulLe(3, p, q);
    assert (p - 1) * q == n - q;
    DivModUnique(0, 0, 0, n);
    DivModUnique(0 - q, -1, n - q, n);
    CodecDomain(n, 0);
    CodecDomain(n, 0 - q);
  }

  lemma SameCiphertext(key: Key, p: nat, q: nat, r: nat, zero: int, minus: int)
    requires key.Valid() && ((p == key.p && q == key.q) || (p == key.q && q == key.p))
    requires key.x % p == 0 && r > 0 && zero == 0 && minus == 0 - q
    ensures key.N() == p * q && Representable(key.N(), zero) && Representable(key.N(), minus)
    ensures Encrypt(key, zero, r, false) == Encrypt(key, minus, r, false)
  {
    Sizes(key);
    assert key.p * key.q == key.q * key.p;
    var n, s := key.N(), key.Square();
    var mask := Pow(key.Hs(), r) % s;
    var g := ((p - 1) * q) * n + 1;
    EncodesMinus(p, q, n);
    MaskVanishes(key, p, r);
    var k := Multiple(mask, p * p);
    Collision(p, q, mask, k);
    CongMod(g, s);
    CongMul(g % s, g, mask, mask, s);
    assert 0 * n + 1 == 1;
    DivModUnique(1, 0, 1, s);
  }

  lemma NotBoth(key: Key, m: int, m': int, r: nat)
    requires key.Valid() && m != m' && Encrypt(key, m, r, false) == Encrypt(key, m', r, false)
    ensures !DecryptsBack(key, m, r) || !DecryptsBack(key, m', r)
  {
  }

  lemma UnsoundLoses(key: Key, r: nat) returns (m: int)
    requires key.Valid() && !Sound(key, r)
    ensures Representable(key.N(), m) && !DecryptsBack(key, m, r)
  {
    var p, q := key.p, key.q;
    if key.x % p != 0 {
      p, q := q, p;
    }
    var zero: int := q - q;
    var minus: int := zero - q;
    SameCiphertext(key, p, q, r, zero, minus);
    NotBoth(key, zero, minus, r);
    m := if DecryptsBack(key, zero, r) then minus else zero;
  }

  /** Every representable number is recovered from its encryption with exponent r if and only if the
      mask is trivial or x is coprime to n, which key generation does not check. */
  lemma {:induction false} MaskExact(key: Key, r: nat)
    requires key.Valid()
    ensures (forall m :: Representable(key.N(), m) ==> DecryptsBack(key, m, r)) <==> Sound(key, r)
  {
    if Sound(key, r) {
      forall m | Representable(key.N(), m) ensures DecryptsBack(key, m, r) {
        SoundDecryptsBack(key, m, r);
      }
    } else {
      var m := UnsoundLoses(key, r);
    }
  }
}
