/** cpp/wedpr-crypto/ppc-homo/codec/SignedNumberCodec.h: signed integers as residues modulo N.
    The residues strictly between N/3 and 2N/3 are a guard band that marks an overflow. */
module SignedCodec {
  import opened Arith
  import opened Outcome
  import opened BigNumber

  function MaxPositive(n: nat): nat { n / 3 }

  function NegativeZero(n: nat): nat { (n * 2) / 3 }

  function Check(n: nat, v: int): Result<()> {
    if v >= n then Err(NumberOverN)
    else if MaxPositive(n) < v < NegativeZero(n) then Err(NumberInGuardBand)
    else Ok(())
  }

  function Encode(n: nat, v: int): Result<int>
    requires n > 0
  {
    if Check(n, v).Err? then Err(Check(n, v).error)
    else if Check(n, v % n).Err? then Err(Check(n, v % n).error)
    else Ok(v % n)
  }

  function Decode(n: nat, v: int): Result<int> {
    if Check(n, v).Err? then Err(Check(n, v).error)
    else if v < MaxPositive(n) then Ok(v)
    else Ok(v - n)
  }

  /** The k-th shift of `v` by N lies strictly inside the guard band. */
  predicate InGuard(n: nat, v: int, k: int) { n / 3 < v + k * n < 2 * n / 3 }

  /** What is accepted, over all integers: nothing from N on, nothing that a multiple of N moves into the
      guard band, and everything else, as the one residue in [0, N). */
  lemma {:induction false} EncodeExact(n: nat, v: int)
    requires n > 0
    ensures v >= n ==> Encode(n, v) == Err(NumberOverN)
    ensures v < n ==> (Encode(n, v) == Err(NumberInGuardBand) <==> exists k :: InGuard(n, v, k))
    ensures Encode(n, v).Ok? <==> v < n && forall k :: !InGuard(n, v, k)
    ensures Encode(n, v).Ok? ==> 0 <= Encode(n, v).value < n && Cong(Encode(n, v).value, v, n)
  {
    var q, r := v / n, v % n;
    assert v == q * n + r;
    CongMod(v, n);
    assert v + (-q) * n == r by { assert (-q) * n == -(q * n); }
    if k :| InGuard(n, v, k) {
      var x := v + k * n;
      DivModUnique(x, 0, x, n);
      ModShift(v, k, n);
      assert r == x;
    }
    if n / 3 < r < 2 * n / 3 {
      assert InGuard(n, v, -q);
    }
    if n / 3 < v < 2 * n / 3 {
      assert v + 0 * n == v;
      assert InGuard(n, v, 0);
    }
  }

  /** What a residue decodes to: a rejection exactly inside the guard band, else the one representable
      number with that residue. */
  lemma {:induction false} DecodeExact(n: nat, v: int)
    requires 0 <= v < n
    ensures n / 3 < v < 2 * n / 3 <==> Decode(n, v) == Err(NumberInGuardBand)
    ensures !(n / 3 < v < 2 * n / 3) ==>
              && Decode(n, v).Ok? && Cong(Decode(n, v).value, v, n)
              && (2 * n / 3 - n <= Decode(n, v).value < n / 3 || Decode(n, v).value == n / 3 - n)
  {
    ModShift(v, -1, n);
    assert v + (-1) * n == v - n;
  }

  /** The integers that are read back unchanged: one interval and a stray value below it. */
  predicate Representable(n: nat, v: int) {
    NegativeZero(n) - n <= v < MaxPositive(n) || v == MaxPositive(n) - n
  }

  /** Decoding the residue of an integer gives that integer back exactly when it is representable. */
  lemma {:induction false} DecodeResidue(n: nat, v: int)
    requires n > 0
    ensures Decode(n, v % n) == Ok(v) <==> Representable(n, v)
  {
    if 0 <= v < n {
      DivModUnique(v, 0, v, n);
    } else if 0 - n <= v < 0 {
      DivModUnique(v, -1, v + n, n);
    } else {
      assert 0 <= v % n < n;
      assert MaxPositive(n) <= NegativeZero(n) <= n;
    }
  }

  ghost predicate RoundTrips(n: nat, v: int)
    requires n > 0
  {
    Encode(n, v).Ok? && Decode(n, Encode(n, v).value) == Ok(v)
  }

  /** The codec's domain over all integers and every modulus. */
  lemma {:induction false} CodecDomain(n: nat, v: int)
    requires n > 0
    ensures RoundTrips(n, v) <==> Representable(n, v)
  {
    DecodeResidue(n, v);
    if Representable(n, v) {
      assert Check(n, v).Ok?;
    }
  }

  /** What the guard band is for: the sum of two in-range numbers decodes to the sum or is
      rejected, with one exception. The sum N/3 passes the check and decodes as negative. */
  lemma {:induction false} GuardBand(n: nat, a: int, b: int)
    requires n > 0
    requires 0 - MaxPositive(n) < a < MaxPositive(n) && 0 - MaxPositive(n) < b < MaxPositive(n)
    ensures Encode(n, a).Ok? && Encode(n, b).Ok?
    ensures Decode(n, (Encode(n, a).value + Encode(n, b).value) % n) ==
            if NegativeZero(n) - n <= a + b < MaxPositive(n) then Ok(a + b)
            else if a + b == MaxPositive(n) then Ok(MaxPositive(n) - n)
            else Err(NumberInGuardBand)
  {
    DecodeResidue(n, a);
    DecodeResidue(n, b);
    CodecDomain(n, a);
    CodecDomain(n, b);
    var s := a + b;
    assert (Encode(n, a).value + Encode(n, b).value) % n == s % n by {
      CongMod(a, n);
      CongMod(b, n);
      CongAdd(a % n, a, b % n, b, n);
    }
    if s >= 0 {
      DivModUnique(s, 0, s, n);
    } else {
      DivModUnique(s, -1, s + n, n);
    }
  }

  /** The object itself: three numbers filled by the constructor and only read afterwards. */
  class SignedNumberCodec {
    const n: BigNum
    const maxPositive: BigNum
    const negativeZero: BigNum

    ghost predicate Valid()
      reads n, maxPositive, negativeZero
    {
      && n.bn > 0
      && maxPositive.bn == MaxPositive(n.bn)
      && negativeZero.bn == NegativeZero(n.bn)
    }

    ghost function Cells(): set<BigNum> { {n, maxPositive, negativeZero} }

    constructor (maxBits: nat)
      ensures Valid() && fresh(Cells()) && n.bn == Pow2(maxBits)
    {
      n := new BigNum(0);
      maxPositive := new BigNum(0);
      negativeZero := new BigNum(0);
      new;
      var one := new BigNum(1);
      one.LeftShift(n, maxBits);
      Init();
    }

    method Init()
      requires n.bn > 0 && n != maxPositive && n != negativeZero && maxPositive != negativeZero
      modifies maxPositive, negativeZero
      ensures Valid()
    {
      var three := new BigNum(3);
      n.Div(maxPositive, three);
      var two := new BigNum(2);
      n.Mul(negativeZero, two);
      negativeZero.Div(negativeZero, three);
    }

    method CheckRange(v: BigNum) returns (r: Result<()>)
      requires Valid()
      ensures r == Check(n.bn, v.bn)
    {
      if v.bn >= n.bn {
        return Err(NumberOverN);
      }
      if v.bn > maxPositive.bn && v.bn < negativeZero.bn {
        return Err(NumberInGuardBand);
      }
      return Ok(());
    }

    method EncodeNumber(v: BigNum) returns (r: Result<BigNum>)
      requires Valid()
      ensures r.Ok? ==> fresh(r.value) && Encode(n.bn, v.bn) == Ok(r.value.bn)
      ensures r.Err? ==> Encode(n.bn, v.bn) == Err(r.error)
    {
      var checked := CheckRange(v);
      if checked.Err? {
        return Err(checked.error);
      }
      var result := new BigNum(v.bn % n.bn);
      checked := CheckRange(result);
      if checked.Err? {
        return Err(checked.error);
      }
      return Ok(result);
    }

    /** A non-negative result is the argument itself, storage included. */
    method DecodeNumber(v: BigNum) returns (r: Result<BigNum>)
      requires Valid()
      ensures r.Ok? ==> (r.value == v || fresh(r.value)) && Decode(n.bn, v.bn) == Ok(r.value.bn)
      ensures r.Err? ==> Decode(n.bn, v.bn) == Err(r.error)
    {
      var checked := CheckRange(v);
      if checked.Err? {
        return Err(checked.error);
      }
      if v.bn < maxPositive.bn {
        return Ok(v);
      }
      var result := v.Sub(n);
      return Ok(result);
    }
  }
}
