/** cpp/wedpr-crypto/ppc-homo/codec/Common.h and ihc/FloatingPointIhc.cpp: decimal numbers as an
    encrypted mantissa and a public int16 exponent. */
module FloatingIhc {
  import opened Arith
  import opened Outcome
  import SignedCodec
  import Ihc

  datatype Decimal = Decimal(m: int, exponent: int)
  datatype FCipher<T> = FCipher(cipher: T, exponent: int)

  predicate FitsInt16(e: int) { -0x8000 <= e < 0x8000 }

  /** The conversion of an int to int16_t. */
  function Int16(e: int): (r: int)
    ensures FitsInt16(r) && r % 0x10000 == e % 0x10000
    ensures FitsInt16(e) ==> r == e
  {
    (e + 0x8000) % 0x10000 - 0x8000
  }

  // ---------------------------------------------------------------------------------------------
  // The operations
  // ---------------------------------------------------------------------------------------------

  /** Brings both operands to the lower exponent by scaling the other ciphertext by a power of ten. */
  function Align<T>(scale: (int, T) -> T, a: FCipher<T>, b: FCipher<T>): (FCipher<T>, FCipher<T>) {
    if a.exponent == b.exponent then (a, b)
    else if a.exponent < b.exponent then
      (a, FCipher(scale(Pow(10, b.exponent - a.exponent), b.cipher), a.exponent))
    else
      (FCipher(scale(Pow(10, a.exponent - b.exponent), a.cipher), b.exponent), b)
  }

  /** precisionAlign writes through a pointer to whichever operand has the larger exponent. The two
      references may be the same object. */
  class FloatingPointCipher<T> {
    var cipher: T
    var exponent: int

    constructor (cipher: T, exponent: int)
      ensures Contents() == FCipher(cipher, exponent)
    {
      this.cipher, this.exponent := cipher, exponent;
    }

    function Contents(): FCipher<T>
      reads this
    {
      FCipher(cipher, exponent)
    }
  }

  method PrecisionAlign<T>(c1: FloatingPointCipher<T>, c2: FloatingPointCipher<T>, scale: (int, T) -> T)
    modifies c1, c2
    ensures (c1.Contents(), c2.Contents()) == Align(scale, old(c1.Contents()), old(c2.Contents()))
    ensures c1.exponent == c2.exponent == if old(c1.exponent) < old(c2.exponent) then old(c1.exponent) else old(c2.exponent)
    ensures old(c1.exponent) <= old(c2.exponent) ==> c1.cipher == old(c1.cipher)
    ensures old(c2.exponent) <= old(c1.exponent) ==> c2.cipher == old(c2.cipher)
    ensures old(c1.exponent) < old(c2.exponent) ==>
              c2.cipher == scale(Pow(10, old(c2.exponent) - old(c1.exponent)), old(c2.cipher))
    ensures old(c2.exponent) < old(c1.exponent) ==>
              c1.cipher == scale(Pow(10, old(c1.exponent) - old(c2.exponent)), old(c1.cipher))
  {
    if c1.exponent == c2.exponent {
      return;
    }
    var alignedCipher := c1;
    var exp := 0;
    if c1.exponent < c2.exponent {
      alignedCipher := c2;
      exp := c2.exponent - c1.exponent;
      alignedCipher.exponent := c1.exponent;
    } else {
      exp := c1.exponent - c2.exponent;
      alignedCipher.exponent := c2.exponent;
    }
    alignedCipher.cipher := scale(Pow(10, exp), alignedCipher.cipher);
  }

  function Scaler(n: nat): (int, Ihc.State) -> Ihc.State
    requires n > 0
  {
    (k, c) => if n > 0 then Ihc.ScalaMul(n, k, c) else c
  }

  function Add(n: nat, a: FCipher<Ihc.State>, b: FCipher<Ihc.State>): FCipher<Ihc.State>
    requires n > 0
  {
    var (x, y) := Align(Scaler(n), a, b);
    FCipher(Ihc.Add(n, x.cipher, y.cipher), x.exponent)
  }

  function Sub(n: nat, a: FCipher<Ihc.State>, b: FCipher<Ihc.State>): FCipher<Ihc.State>
    requires n > 0
  {
    var (x, y) := Align(Scaler(n), a, b);
    FCipher(Ihc.Sub(n, x.cipher, y.cipher), x.exponent)
  }

  /** FloatingPointIhc::add and ::sub: align two local copies in place, then combine them. */
  method Combine(n: nat, a: FCipher<Ihc.State>, b: FCipher<Ihc.State>, subtract: bool)
    returns (result: FCipher<Ihc.State>)
    requires n > 0
    ensures result == if subtract then Sub(n, a, b) else Add(n, a, b)
  {
    var cipher1 := new FloatingPointCipher(a.cipher, a.exponent);
    var cipher2 := new FloatingPointCipher(b.cipher, b.exponent);
    PrecisionAlign(cipher1, cipher2, Scaler(n));
    var cipher := if subtract then Ihc.Sub(n, cipher1.cipher, cipher2.cipher)
                  else Ihc.Add(n, cipher1.cipher, cipher2.cipher);
    result := FCipher(cipher, cipher1.exponent);
  }

  function ScalaMul(n: nat, k: Decimal, a: FCipher<Ihc.State>): FCipher<Ihc.State>
    requires n > 0
  {
    FCipher(Ihc.ScalaMul(n, k.m, a.cipher), Int16(k.exponent + a.exponent))
  }

  function Decrypt(n: nat, rounds: nat, key: int, a: FCipher<Ihc.State>): Result<Decimal>
    requires n > 0
  {
    match Ihc.Decrypt(n, rounds, key, a.cipher)
    case Err(x) => Err(x)
    case Ok(m) => Ok(Decimal(m, a.exponent))
  }

  // ---------------------------------------------------------------------------------------------
  // Expressions
  // ---------------------------------------------------------------------------------------------

  datatype Expr =
    | Enc(value: Decimal, nonce: int)
    | Sum(left: Expr, right: Expr)
    | Diff(left: Expr, right: Expr)
    | Times(k: Decimal, arg: Expr)

  function Eval(n: nat, rounds: nat, key: int, f: Expr): Result<FCipher<Ihc.State>>
    requires n > 0
  {
    match f
    case Enc(d, nonce) =>
      (match Ihc.Encrypt(n, rounds, key, d.m, nonce)
       case Err(x) => Err(x)
       case Ok(c) => Ok(FCipher(c, d.exponent)))
    case Sum(l, r) =>
      (match (Eval(n, rounds, key, l), Eval(n, rounds, key, r))
       case (Err(x), _) => Err(x)
       case (_, Err(x)) => Err(x)
       case (Ok(a), Ok(b)) => Ok(Add(n, a, b)))
    case Diff(l, r) =>
      (match (Eval(n, rounds, key, l), Eval(n, rounds, key, r))
       case (Err(x), _) => Err(x)
       case (_, Err(x)) => Err(x)
       case (Ok(a), Ok(b)) => Ok(Sub(n, a, b)))
    case Times(k, g) =>
      (match Eval(n, rounds, key, g)
       case Err(x) => Err(x)
       case Ok(a) => Ok(ScalaMul(n, k, a)))
  }

  function Exponent(f: Expr): int {
    match f
    case Enc(d, _) => d.exponent
    case Sum(l, r) => if Exponent(l) < Exponent(r) then Exponent(l) else Exponent(r)
    case Diff(l, r) => if Exponent(l) < Exponent(r) then Exponent(l) else Exponent(r)
    case Times(k, g) => k.exponent + Exponent(g)
  }

  /** Every exponent that scalaMul computes fits the field that stores it. */
  predicate ExponentsFit(f: Expr) {
    match f
    case Enc(_, _) => true
    case Sum(l, r) => ExponentsFit(l) && ExponentsFit(r)
    case Diff(l, r) => ExponentsFit(l) && ExponentsFit(r)
    case Times(_, g) => ExponentsFit(g) && FitsInt16(Exponent(f))
  }

  /** `e` scaled down to exponent `to`, as alignment does it. */
  function Lift(e: Ihc.Expr, from: int, to: int): Ihc.Expr {
    if from <= to then e else Ihc.Times(Pow(10, from - to), e)
  }

  /** The integer expression that the layer below computes, alignments included. */
  function Flat(f: Expr): Ihc.Expr {
    match f
    case Enc(d, nonce) => Ihc.Enc(d.m, nonce)
    case Sum(l, r) =>
      Ihc.Sum(Lift(Flat(l), Exponent(l), Exponent(f)), Lift(Flat(r), Exponent(r), Exponent(f)))
    case Diff(l, r) =>
      Ihc.Diff(Lift(Flat(l), Exponent(l), Exponent(f)), Lift(Flat(r), Exponent(r), Exponent(f)))
    case Times(k, g) => Ihc.Times(k.m, Flat(g))
  }

  /** The mantissa of the result at the result's exponent. */
  function Mantissa(f: Expr): int { Ihc.Plain(Flat(f)) }

  /** The exact value of `f`, counted in units of 10^low. No alignment and no ciphertext is involved. */
  ghost function Exact(f: Expr, low: int): int
    requires low <= Exponent(f)
  {
    match f
    case Enc(d, _) => d.m * Pow(10, d.exponent - low)
    case Sum(l, r) => Exact(l, low) + Exact(r, low)
    case Diff(l, r) => Exact(l, low) - Exact(r, low)
    case Times(k, g) => k.m * Exact(g, low - k.exponent)
  }

  /** A finer unit counts the same value: Exact(f, low) * 10^low does not depend on low. */
  lemma {:induction false} ExactUnits(f: Expr, low: int, d: nat)
    requires low <= Exponent(f)
    ensures Exact(f, low - d) == Pow(10, d) * Exact(f, low)
  {
    match f
    case Enc(v, _) =>
      PowAdd(10, d, v.exponent - low);
      Distribute(Pow(10, d), v.m, Pow(10, v.exponent - low));
    case Sum(l, r) =>
      ExactUnits(l, low, d);
      ExactUnits(r, low, d);
      Distribute(Pow(10, d), Exact(l, low), Exact(r, low));
    case Diff(l, r) =>
      ExactUnits(l, low, d);
      ExactUnits(r, low, d);
      Distribute(Pow(10, d), Exact(l, low), Exact(r, low));
    case Times(k, g) =>
      ExactUnits(g, low - k.exponent, d);
      assert low - d - k.exponent == low - k.exponent - d;
      Distribute(Pow(10, d), k.m, Exact(g, low - k.exponent));
  }

  lemma Distribute(p: int, a: int, b: int)
    ensures p * (a + b) == p * a + p * b
    ensures p * (a - b) == p * a - p * b
    ensures p * (a * b) == a * (p * b)
  {
  }

  lemma LiftExact(f: Expr, to: int)
    requires to <= Exponent(f) && Mantissa(f) == Exact(f, Exponent(f))
    ensures Ihc.Plain(Lift(Flat(f), Exponent(f), to)) == Exact(f, to)
  {
    ExactUnits(f, Exponent(f), Exponent(f) - to);
  }

  lemma {:induction false} MantissaIsExact(f: Expr)
    ensures Mantissa(f) == Exact(f, Exponent(f))
  {
    match f
    case Enc(_, _) =>
    case Sum(l, r) =>
      MantissaIsExact(l);
      MantissaIsExact(r);
      LiftExact(l, Exponent(f));
      LiftExact(r, Exponent(f));
    case Diff(l, r) =>
      MantissaIsExact(l);
      MantissaIsExact(r);
      LiftExact(l, Exponent(f));
      LiftExact(r, Exponent(f));
    case Times(_, g) =>
      MantissaIsExact(g);
  }

  lemma EvalLifted(n: nat, rounds: nat, key: int, f: Expr, to: int)
    requires n > 0 && to <= Exponent(f)
    ensures Ihc.Eval(n, rounds, key, Lift(Flat(f), Exponent(f), to)) ==
            match Ihc.Eval(n, rounds, key, Flat(f))
            case Err(x) => Err(x)
            case Ok(c) => Ok(if to == Exponent(f) then c else Ihc.ScalaMul(n, Pow(10, Exponent(f) - to), c))
  {
  }

  /** The floating layer is the integer layer on the flattened expression. */
  lemma {:induction false} EvalIsFlat(n: nat, rounds: nat, key: int, f: Expr)
    requires n > 0 && ExponentsFit(f)
    ensures Eval(n, rounds, key, f) ==
            match Ihc.Eval(n, rounds, key, Flat(f))
            case Err(x) => Err(x)
            case Ok(c) => Ok(FCipher(c, Exponent(f)))
  {
    match f
    case Enc(_, _) =>
    case Sum(l, r) =>
      EvalIsFlat(n, rounds, key, l);
      EvalIsFlat(n, rounds, key, r);
      EvalLifted(n, rounds, key, l, Exponent(f));
      EvalLifted(n, rounds, key, r, Exponent(f));
    case Diff(l, r) =>
      EvalIsFlat(n, rounds, key, l);
      EvalIsFlat(n, rounds, key, r);
      EvalLifted(n, rounds, key, l, Exponent(f));
      EvalLifted(n, rounds, key, r, Exponent(f));
    case Times(_, g) =>
      EvalIsFlat(n, rounds, key, g);
  }

  /** Any expression decrypts to its exact decimal value if and only if its final mantissa is
      representable; no intermediate mantissa, aligned or not, has to be. */
  lemma {:induction false} FloatingHomomorphism(n: nat, rounds: nat, key: int, f: Expr, low: int)
    requires n > 0 && rounds > 0 && ExponentsFit(f) && low <= Exponent(f)
    requires Eval(n, rounds, key, f).Ok?
    ensures var d := Decrypt(n, rounds, key, Eval(n, rounds, key, f).value);
            (d.Ok? && d.value.exponent >= low
             && d.value.m * Pow(10, d.value.exponent - low) == Exact(f, low))
            <==> SignedCodec.Representable(n, Mantissa(f))
    ensures Decrypt(n, rounds, key, Eval(n, rounds, key, f).value) ==
            match SignedCodec.Decode(n, Mantissa(f) % n)
            case Ok(m) => Ok(Decimal(m, Exponent(f)))
            case Err(x) => Err(x)
  {
    EvalIsFlat(n, rounds, key, f);
    Ihc.Homomorphism(n, rounds, key, Flat(f));
    MantissaIsExact(f);
    ExactUnits(f, Exponent(f), Exponent(f) - low);
    var d := Decrypt(n, rounds, key, Eval(n, rounds, key, f).value);
    if d.Ok? {
      CancelFactor(d.value.m, Mantissa(f), Pow(10, Exponent(f) - low));
    }
  }

  lemma CancelFactor(a: int, b: int, c: nat)
    requires c > 0
    ensures a * c == c * b <==> a == b
  {
    assert a * c - c * b == (a - b) * c;
    if a < b {
      MulLe(a - b, -1, c);
    } else if a > b {
      MulLe(1, a - b, c);
    }
  }

  /** What a scalar multiple decrypts to, wrapped exponent or not. */
  lemma ProductDecrypts(n: nat, rounds: nat, key: int, k: Decimal, g: Expr)
    requires n > 0 && rounds > 0 && ExponentsFit(g) && Eval(n, rounds, key, Times(k, g)).Ok?
    requires SignedCodec.Representable(n, k.m * Mantissa(g))
    ensures Decrypt(n, rounds, key, Eval(n, rounds, key, Times(k, g)).value)
            == Ok(Decimal(k.m * Mantissa(g), Int16(k.exponent + Exponent(g))))
  {
    EvalIsFlat(n, rounds, key, g);
    Ihc.Homomorphism(n, rounds, key, Ihc.Times(k.m, Flat(g)));
  }

  /** Where the stored exponent wraps around, a representable product does not decrypt to its exact value
      unless it is zero: the decryption is exact if and only if the exponents' sum fits int16 or the
      product is zero. `low` is any unit at or below both exponents. */
  lemma {:induction false} ScalaMulExponentWrap(n: nat, rounds: nat, key: int, k: Decimal, g: Expr, low: int)
    requires n > 0 && rounds > 0 && ExponentsFit(g) && Eval(n, rounds, key, Times(k, g)).Ok?
    requires SignedCodec.Representable(n, k.m * Mantissa(g))
    requires low <= k.exponent + Exponent(g) && low <= Int16(k.exponent + Exponent(g))
    ensures var d := Decrypt(n, rounds, key, Eval(n, rounds, key, Times(k, g)).value);
            && d.Ok? && d.value.exponent >= low
            && (d.value.m * Pow(10, d.value.exponent - low) == Exact(Times(k, g), low)
                <==> FitsInt16(k.exponent + Exponent(g)) || k.m * Mantissa(g) == 0)
  {
    var sum, product := k.exponent + Exponent(g), k.m * Mantissa(g);
    ProductDecrypts(n, rounds, key, k, g);
    MantissaIsExact(Times(k, g));
    ExactUnits(Times(k, g), sum, sum - low);
    SamePower(product, Int16(sum) - low, sum - low);
  }

  /** An input that wraps: 2 * 10^0x7fff times 3 * 10^1 decrypts to 6 * 10^-0x8000. */
  lemma {:induction false} WrappingInput(n: nat, rounds: nat, key: int, nonce: int)
    requires n >= 30 && rounds > 0
    ensures var f := Times(Decimal(2, 0x7fff), Enc(Decimal(3, 1), nonce));
            && Eval(n, rounds, key, f).Ok?
            && Decrypt(n, rounds, key, Eval(n, rounds, key, f).value) == Ok(Decimal(6, -0x8000))
  {
    var k, g := Decimal(2, 0x7fff), Enc(Decimal(3, 1), nonce);
    assert Flat(g) == Ihc.Enc(3, nonce) && Mantissa(g) == 3;
    SignedCodec.CodecDomain(n, 3);
    assert Ihc.Encrypt(n, rounds, key, 3, nonce).Ok?;
    ProductDecrypts(n, rounds, key, k, g);
  }

  lemma SamePower(product: int, d: nat, e: nat)
    ensures product * Pow(10, d) == Pow(10, e) * product <==> d == e || product == 0
  {
    if d < e {
      Pow10Strict(d, e);
    } else if e < d {
      Pow10Strict(e, d);
    }
    if product > 0 {
      CancelFactor(Pow(10, d), Pow(10, e), product);
    } else if product < 0 {
      CancelFactor(Pow(10, d), Pow(10, e), -product);
    }
  }

  lemma Pow10Strict(d: nat, e: nat)
    requires d < e
    ensures Pow(10, d) < Pow(10, e)
  {
    PowMonotone(10, d, e - 1);
  }
}
