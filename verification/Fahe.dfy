/** cpp/wedpr-crypto/ppc-homo/fahe/Fahe.cpp (FAHE2): a ciphertext is p * q + M, where M holds, from
    the top down, lambda - pos bits of noise, mmax bits of message, alpha guard bits and pos bits of
    noise. Ciphertexts are added as plain integers. */
module Fahe {
  import opened Arith
  import opened Outcome
  import opened BigNumber
  import opened SignedCodec

  datatype Key = Key(lambda: nat, alpha: nat, pos: nat, mmax: nat, p: nat) {
    /** What generateKey guarantees: pos = rand() % lambda and p a prime of lambda + 2 alpha + mmax bits. */
    ghost predicate Valid() { pos < lambda && p >= Pow2(lambda + 2 * alpha + mmax - 1) }

    function N(): nat { Pow2(mmax) }
    function Shift(): nat { pos + alpha }
  }

  datatype Noise = Noise(low: nat, high: nat, q: nat) {
    ghost predicate Valid(key: Key) requires key.pos < key.lambda {
      low < Pow2(key.pos) && high < Pow2(key.lambda - key.pos)
    }
  }

  function Encrypt(key: Key, m: int, noise: Noise): Result<int> {
    match Encode(key.N(), m)
    case Err(e) => Err(e)
    case Ok(v) =>
      Ok(noise.q * key.p
         + noise.high * Pow2(key.pos + key.mmax + key.alpha) + v * Pow2(key.Shift()) + noise.low)
  }

  /** Reduce modulo p, drop the low noise and the guard bits, mask the high noise, decode. */
  function Decrypt(key: Key, c: nat): Result<int>
    requires key.p > 0
  {
    Decode(key.N(), (c % key.p) / Pow2(key.Shift()) % key.N())
  }

  datatype Expr = Enc(m: int, noise: Noise) | Sum(left: Expr, right: Expr)

  function Eval(key: Key, e: Expr): Result<int> {
    match e
    case Enc(m, noise) => Encrypt(key, m, noise)
    case Sum(l, r) =>
      match (Eval(key, l), Eval(key, r))
      case (Err(x), _) => Err(x)
      case (_, Err(x)) => Err(x)
      case (Ok(c), Ok(d)) => Ok(c + d)
  }

  predicate Encodable(n: nat, e: Expr)
    requires n > 0
  {
    match e
    case Enc(m, _) => Encode(n, m).Ok?
    case Sum(l, r) => Encodable(n, l) && Encodable(n, r)
  }

  /** Only encryption can fail. */
  lemma {:induction false} EvalSucceeds(key: Key, e: Expr)
    ensures Eval(key, e).Ok? <==> Encodable(key.N(), e)
  {
    match e
    case Enc(_, _) =>
    case Sum(l, r) => EvalSucceeds(key, l); EvalSucceeds(key, r);
  }

  function Plain(e: Expr): int {
    match e
    case Enc(m, _) => m
    case Sum(l, r) => Plain(l) + Plain(r)
  }

  function Leaves(e: Expr): nat {
    match e
    case Enc(_, _) => 1
    case Sum(l, r) => Leaves(l) + Leaves(r)
  }

  ghost predicate NoisesFit(key: Key, e: Expr)
    requires key.Valid()
  {
    match e
    case Enc(_, noise) => noise.Valid(key)
    case Sum(l, r) => NoisesFit(key, l) && NoisesFit(key, r)
  }

  // ---------------------------------------------------------------------------------------------
  // The fields of a sum
  // ---------------------------------------------------------------------------------------------

  /** q * p + high * 2^(shift + mmax) + message * 2^shift + low. */
  datatype Fields = Fields(q: nat, high: nat, message: nat, low: nat)

  ghost function FieldSum(key: Key, e: Expr): Fields {
    match e
    case Enc(m, noise) => Fields(noise.q, noise.high, m % key.N(), noise.low)
    case Sum(l, r) =>
      var s, t := FieldSum(key, l), FieldSum(key, r);
      Fields(s.q + t.q, s.high + t.high, s.message + t.message, s.low + t.low)
  }

  /** M, the part of the ciphertext that is not a multiple of p. */
  ghost function Packed(key: Key, f: Fields): nat {
    (f.high * key.N() + f.message) * Pow2(key.Shift()) + f.low
  }

  lemma {:induction false} EvalFields(key: Key, e: Expr)
    requires Eval(key, e).Ok?
    ensures var f := FieldSum(key, e); Eval(key, e).value == f.q * key.p + Packed(key, f)
  {
    match e
    case Enc(m, noise) =>
      EncryptFields(key, m, noise);
    case Sum(l, r) =>
      EvalFields(key, l);
      EvalFields(key, r);
      var f, g := FieldSum(key, l), FieldSum(key, r);
      PackedSum(key, f, g);
      AddFields(0, f.q, 0, g.q, 0, key.p);
  }

  lemma EncryptFields(key: Key, m: int, noise: Noise)
    requires Encrypt(key, m, noise).Ok?
    ensures Encrypt(key, m, noise).value
            == noise.q * key.p + Packed(key, Fields(noise.q, noise.high, m % key.N(), noise.low))
  {
    PowAdd(2, key.mmax, key.Shift());
    assert key.pos + key.mmax + key.alpha == key.mmax + key.Shift();
    SplitFields(noise.high, m % key.N(), key.N(), Pow2(key.Shift()));
  }

  lemma SplitFields(h: int, m: int, n: int, s: int)
    ensures (h * n + m) * s == h * (n * s) + m * s
  {
  }

  lemma AddFields(h: int, m: int, h': int, m': int, n: int, s: int)
    ensures ((h + h') * n + (m + m')) * s == (h * n + m) * s + (h' * n + m') * s
  {
    assert (h + h') * n == h * n + h' * n;
  }

  lemma PackedSum(key: Key, f: Fields, g: Fields)
    ensures Packed(key, Fields(f.q + g.q, f.high + g.high, f.message + g.message, f.low + g.low))
            == Packed(key, f) + Packed(key, g)
  {
    AddFields(f.high, f.message, g.high, g.message, key.N(), Pow2(key.Shift()));
  }

  lemma AddBounds(a: int, b: int, t: nat, u: nat, w: nat)
    requires a < t * w && b < u * w
    ensures a + b < (t + u) * w
  {
    assert (t + u) * w == t * w + u * w;
  }

  /** Each summand stays below its field's width, so t summands stay below t widths. */
  lemma {:induction false} FieldBounds(key: Key, e: Expr)
    requires key.Valid() && NoisesFit(key, e)
    ensures var f, t := FieldSum(key, e), Leaves(e);
            && t > 0
            && f.low < t * Pow2(key.pos)
            && Packed(key, f) < t * Pow2(key.lambda + key.alpha + key.mmax)
  {
    var w, d := Pow2(key.lambda + key.alpha + key.mmax), Pow2(key.pos);
    match e
    case Enc(m, noise) => LeafBounds(key, m % key.N(), noise);
    case Sum(l, r) =>
      FieldBounds(key, l);
      FieldBounds(key, r);
      var f, g := FieldSum(key, l), FieldSum(key, r);
      PackedSum(key, f, g);
      AddBounds(Packed(key, f), Packed(key, g), Leaves(l), Leaves(r), w);
      AddBounds(f.low, g.low, Leaves(l), Leaves(r), d);
  }

  lemma LeafBounds(key: Key, message: nat, noise: Noise)
    requires key.Valid() && noise.Valid(key) && message < key.N()
    ensures Packed(key, Fields(noise.q, noise.high, message, noise.low)) < Pow2(key.lambda + key.alpha + key.mmax)
  {
    PowAdd(2, key.lambda - key.pos, key.mmax);
    PowAdd(2, key.lambda - key.pos + key.mmax, key.Shift());
    PowMonotone(2, key.pos, key.Shift());
    PackedBound(noise.high, message, noise.low, Pow2(key.lambda - key.pos), key.N(), Pow2(key.Shift()));
  }

  lemma PackedBound(high: nat, message: nat, low: nat, h: nat, n: nat, s: nat)
    requires high < h && message < n && low < s
    ensures (high * n + message) * s + low < h * n * s
  {
    MulLe(high + 1, h, n);
    MulLe(high * n + message + 1, h * n, s);
  }

  lemma {:induction false} MessageField(key: Key, e: Expr)
    ensures Cong(FieldSum(key, e).message, Plain(e), key.N())
  {
    match e
    case Enc(m, _) => CongMod(m, key.N());
    case Sum(l, r) =>
      MessageField(key, l);
      MessageField(key, r);
      CongAdd(FieldSum(key, l).message, Plain(l), FieldSum(key, r).message, Plain(r), key.N());
  }

  /** t summands fit: their packings below p, and their low noise inside the guard bits. */
  ghost predicate Room(key: Key, t: nat) {
    t <= Pow2(key.alpha) && t * Pow2(key.lambda + key.alpha + key.mmax) <= key.p
  }

  lemma EnoughRoom(key: Key, t: nat, packed: nat, low: nat)
    requires Room(key, t)
    requires packed < t * Pow2(key.lambda + key.alpha + key.mmax) && low < t * Pow2(key.pos)
    ensures packed < key.p && low < Pow2(key.Shift())
  {
    PowAdd(2, key.alpha, key.pos);
    MulLe(t, Pow2(key.alpha), Pow2(key.pos));
  }

  /** A p of full length has room for 2^(alpha-1) summands. */
  lemma HalfRoom(key: Key, t: nat)
    requires key.Valid() && 2 * t <= Pow2(key.alpha)
    ensures Room(key, t)
  {
    var w := Pow2(key.lambda + key.alpha + key.mmax);
    PowAdd(2, key.alpha, key.lambda + key.alpha + key.mmax);
    PowAdd(2, 1, key.lambda + 2 * key.alpha + key.mmax - 1);
    assert Pow2(1) == 2 * Pow2(0);
    assert key.alpha + (key.lambda + key.alpha + key.mmax) == key.lambda + 2 * key.alpha + key.mmax;
    MulLe(2 * t, Pow2(key.alpha), w);
    assert (2 * t) * w == 2 * (t * w);
  }

  /** A p whose two top bits are set, as the prime generator sets them, has room for 3 * 2^(alpha-2). */
  lemma TopBitsRoom(key: Key, t: nat)
    requires key.lambda + 2 * key.alpha + key.mmax >= 2
    requires key.p >= 3 * Pow2(key.lambda + 2 * key.alpha + key.mmax - 2) && 4 * t <= 3 * Pow2(key.alpha)
    ensures Room(key, t)
  {
    var w, bits := Pow2(key.lambda + key.alpha + key.mmax), key.lambda + 2 * key.alpha + key.mmax;
    PowAdd(2, key.alpha, key.lambda + key.alpha + key.mmax);
    PowAdd(2, 2, bits - 2);
    assert Pow2(2) == 2 * Pow2(1) && Pow2(1) == 2 * Pow2(0);
    assert key.alpha + (key.lambda + key.alpha + key.mmax) == bits;
    ThreeQuarters(t, Pow2(key.alpha), w);
  }

  lemma ThreeQuarters(t: nat, a: nat, w: nat)
    requires 4 * t <= 3 * a
    ensures 4 * (t * w) <= 3 * (a * w)
  {
    MulLe(4 * t, 3 * a, w);
    assert (4 * t) * w == 4 * (t * w) && (3 * a) * w == 3 * (a * w);
  }

  lemma {:induction false} Unpack(p: nat, q: nat, h: nat, n: nat, m: nat, s: nat, low: nat)
    requires n > 0 && low < s && (h * n + m) * s + low < p
    ensures (q * p + ((h * n + m) * s + low)) % p / s % n == m % n
  {
    DivModUnique(q * p + ((h * n + m) * s + low), q, (h * n + m) * s + low, p);
    DivModUnique((h * n + m) * s + low, h * n + m, low, s);
    ModShift(m, h, n);
  }

  /** Decrypting any sum of ciphertexts that p has room for, whatever the noises and multipliers:
      what is decoded is the plain sum modulo 2^mmax, so the plain sum comes back exactly when it
      is representable. */
  lemma {:induction false} Homomorphism(key: Key, e: Expr)
    requires key.Valid() && NoisesFit(key, e) && Room(key, Leaves(e))
    requires Eval(key, e).Ok?
    ensures Eval(key, e).value >= 0
    ensures Decrypt(key, Eval(key, e).value) == Decode(key.N(), Plain(e) % key.N())
    ensures Decrypt(key, Eval(key, e).value) == Ok(Plain(e)) <==> Representable(key.N(), Plain(e))
  {
    EvalFields(key, e);
    FieldBounds(key, e);
    MessageField(key, e);
    DecryptFields(key, Eval(key, e).value, FieldSum(key, e), Leaves(e));
    DecodeResidue(key.N(), Plain(e));
  }

  lemma DecryptFields(key: Key, c: int, f: Fields, t: nat)
    requires key.Valid() && Room(key, t) && c == f.q * key.p + Packed(key, f)
    requires Packed(key, f) < t * Pow2(key.lambda + key.alpha + key.mmax) && f.low < t * Pow2(key.pos)
    ensures c >= 0 && Decrypt(key, c) == Decode(key.N(), f.message % key.N())
  {
    EnoughRoom(key, t, Packed(key, f), f.low);
    Unpack(key.p, f.q, f.high, key.N(), f.message, Pow2(key.Shift()), f.low);
    MulLe(0, f.q, key.p);
  }

  // ---------------------------------------------------------------------------------------------
  // One summand more
  // ---------------------------------------------------------------------------------------------

  /** t + 1 encryptions of zero with the same noise. */
  function Zeros(noise: Noise, t: nat): Expr {
    if t == 0 then Enc(0, noise) else Sum(Zeros(noise, t - 1), Enc(0, noise))
  }

  lemma EncryptZero(key: Key, noise: Noise)
    requires key.mmax > 0 && noise.q == 0 == noise.low
    ensures Encrypt(key, 0, noise) == Ok(noise.high * Pow2(key.pos + key.mmax + key.alpha))
  {
    DivModUnique(0, 0, 0, key.N());
    assert 0 * Pow2(key.Shift()) == 0 && 0 * key.p == 0;
  }

  lemma {:induction false} ZerosFit(key: Key, noise: Noise, t: nat)
    requires key.Valid() && noise.Valid(key)
    ensures var e := Zeros(noise, t); NoisesFit(key, e) && Leaves(e) == t + 1 && Plain(e) == 0
  {
    if t > 0 {
      ZerosFit(key, noise, t - 1);
    }
  }

  lemma {:induction false} ZerosAdd(key: Key, noise: Noise, t: nat, m: nat)
    requires Encrypt(key, 0, noise) == Ok(m)
    ensures Eval(key, Zeros(noise, t)) == Ok((t + 1) * m)
  {
    if t > 0 {
      ZerosAdd(key, noise, t - 1, m);
      assert t * m + m == (t + 1) * m;
    }
  }

  /** c + 1 full high fields pass p = c w + 1 once, and what is left is one below a multiple of f. */
  lemma OverflowsOnce(c: nat, h: nat, f: nat)
    requires c >= 1 && c + 1 < h && f > 0
    ensures var p := c * (h * f) + 1;
            && p > 0 && h - c - 1 > 0 && (h - c - 1) * f >= 1
            && ((c + 1) * ((h - 1) * f)) % p == (h - c - 1) * f - 1
  {
    var w := h * f;
    var rest := (h - c - 1) * f - 1;
    MulLe(1, h - c - 1, f);
    MulLe(h - c - 1, h, f);
    MulLe(1, c, w);
    Excess(c, h, f);
    DivModUnique((c + 1) * ((h - 1) * f), 1, rest, c * w + 1);
  }

  lemma Excess(c: int, h: int, f: int)
    ensures (c + 1) * ((h - 1) * f) == c * (h * f) + (h - c - 1) * f
  {
    var w := h * f;
    assert (h - 1) * f == w - f;
    assert (c + 1) * (w - f) == c * w + w - (c + 1) * f;
    assert (h - (c + 1)) * f == w - (c + 1) * f;
  }

  lemma JustBelow(k: nat, s: nat)
    requires k > 0 && s > 0
    ensures k * s >= 1 && (k * s - 1) / s == k - 1 && (k * s - 1) % s == s - 1
  {
    MulLe(1, k, s);
    assert (k - 1) * s == k * s - s;
    DivModUnique(k * s - 1, k - 1, s - 1, s);
  }

  lemma CutsMinusOne(x: nat, n: nat, s: nat)
    requires x > 0 && n > 0 && s > 0
    ensures x * (n * s) >= 1 && (x * (n * s) - 1) / s % n == n - 1
  {
    var k := x * n;
    Associate(x, n, s);
    JustBelow(x, n);
    JustBelow(k, s);
  }

  lemma Associate(a: int, b: int, c: int)
    ensures a * (b * c) == (a * b) * c
  {
  }

  lemma FieldWidths(key: Key)
    requires key.pos < key.lambda
    ensures Pow2(key.pos + key.mmax + key.alpha) == key.N() * Pow2(key.Shift())
    ensures Pow2(key.lambda + key.alpha + key.mmax)
            == Pow2(key.lambda - key.pos) * Pow2(key.pos + key.mmax + key.alpha)
  {
    PowAdd(2, key.mmax, key.Shift());
    assert key.pos + key.mmax + key.alpha == key.mmax + key.Shift();
    PowAdd(2, key.lambda - key.pos, key.pos + key.mmax + key.alpha);
    assert key.lambda - key.pos + (key.pos + key.mmax + key.alpha) == key.lambda + key.alpha + key.mmax;
  }

  /** The room cannot be enlarged, for any sizes of the fields: with the least odd p that has room for c
      summands, c + 1 encryptions of zero add up to a ciphertext that decrypts to -1. */
  lemma OneSummandTooMany(key: Key, c: nat)
    requires key.Valid() && key.mmax >= 2 && 1 <= c <= Pow2(key.alpha) && c + 1 < Pow2(key.lambda - key.pos)
    requires key.p == c * Pow2(key.lambda + key.alpha + key.mmax) + 1
    ensures var e := Zeros(Noise(0, Pow2(key.lambda - key.pos) - 1, 0), c);
            && Room(key, c) && NoisesFit(key, e) && Leaves(e) == c + 1
            && Plain(e) == 0 && Representable(key.N(), 0)
            && Eval(key, e).Ok? && Eval(key, e).value >= 0
            && Decrypt(key, Eval(key, e).value) == Ok(-1)
  {
    var h, f, n, s := Pow2(key.lambda - key.pos), Pow2(key.pos + key.mmax + key.alpha), key.N(), Pow2(key.Shift());
    FieldWidths(key);
    EncryptZero(key, Noise(0, h - 1, 0));
    ZerosFit(key, Noise(0, h - 1, 0), c);
    MulLe(0, h - 1, f);
    ZerosAdd(key, Noise(0, h - 1, 0), c, (h - 1) * f);
    OverflowsOnce(c, h, f);
    CutsMinusOne(h - c - 1, n, s);
    MulLe(0, c + 1, (h - 1) * f);
    PowMonotone(2, 2, key.mmax);
    assert Pow2(2) == 2 * Pow2(1) && Pow2(1) == 2 * Pow2(0);
    assert Decode(n, n - 1) == Ok(-1);
  }

  /** With a prime that the generator can draw for these sizes: 53 has its two top bits set. */
  lemma {:induction false} OneSummandTooManyDrawn()
    ensures var key, leaf := Key(2, 1, 1, 2, 53), Enc(-1, Noise(1, 1, 0));
            var e := Sum(leaf, leaf);
            && key.Valid() && NoisesFit(key, e) && Room(key, 1) && Leaves(e) == 2
            && Representable(key.N(), Plain(e)) && Eval(key, e).Ok? && Eval(key, e).value >= 0
            && Decrypt(key, Eval(key, e).value) == Ok(Plain(e) - 1)
  {
    assert Pow2(1) == 2 && Pow2(2) == 4 && Pow2(4) == 16;
    assert Pow2(5) == 2 * Pow2(4);
  }

  // ---------------------------------------------------------------------------------------------
  // The methods over shared big numbers
  // ---------------------------------------------------------------------------------------------

  /** M1 is a copy of noise2, so the shift overwrites noise2; nothing reads it afterwards. */
  method PackNumber(key: Key, m: BigNum, noise: Noise) returns (sum: BigNum)
    ensures fresh(sum)
    ensures sum.bn == noise.high * Pow2(key.pos + key.mmax + key.alpha) + m.bn * Pow2(key.Shift()) + noise.low
  {
    var noise1 := new BigNum(noise.low);
    var noise2 := new BigNum(noise.high);
    var m1 := noise2;
    m1.LeftShift(m1, key.pos + key.mmax + key.alpha);
    var m2 := new BigNum(0);
    m.LeftShift(m2, key.pos + key.alpha);
    sum := m1.Add(m2);
    sum := sum.Add(noise1);
  }

  /** No number that existed before the call changes. */
  method EncryptNumber(key: Key, p: BigNum, m: BigNum, noise: Noise) returns (r: Result<BigNum>)
    requires p.bn == key.p
    ensures r.Ok? ==> fresh(r.value) && Encrypt(key, m.bn, noise) == Ok(r.value.bn)
    ensures r.Err? ==> Encrypt(key, m.bn, noise) == Err(r.error)
  {
    var codec := new SignedNumberCodec(key.mmax);
    var encoded := codec.EncodeNumber(m);
    if encoded.Err? {
      return Err(encoded.error);
    }
    var sum := PackNumber(key, encoded.value, noise);
    var q := new BigNum(noise.q);
    var n := new BigNum(0);
    q.Mul(n, p);
    var result := n.Add(sum);
    return Ok(result);
  }

  method DecryptNumber(key: Key, p: BigNum, cipher: BigNum) returns (r: Result<BigNum>)
    requires p.bn == key.p > 0 && cipher.bn >= 0
    ensures r.Ok? ==> fresh(r.value) && Decrypt(key, cipher.bn) == Ok(r.value.bn)
    ensures r.Err? ==> Decrypt(key, cipher.bn) == Err(r.error)
  {
    var result := new BigNum(cipher.bn % p.bn);
    result.bn := result.bn / Pow2(key.pos + key.alpha);
    result.bn := result.bn % Pow2(key.mmax);
    var codec := new SignedNumberCodec(key.mmax);
    r := codec.DecodeNumber(result);
  }
}
